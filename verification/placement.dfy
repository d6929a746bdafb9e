/** Mine placement.  The game draws cell indices with `random_number` and
    rejects an index that already holds a mine, until `bombs` distinct cells
    are mines.  The C library's rand() is replaced by the sequence of values
    it returns (`rolls`), so the placement becomes a function of that
    sequence: `Pick` below is its reference definition. */
module Placement {

  /** random_number(minimum, maximum) for a rand() result `roll` (which is
      never negative, so C's % and Dafny's % agree). */
  function RandomNumber(minimum: int, maximum: int, roll: nat): (r: int)
    requires minimum <= maximum
    ensures minimum <= r <= maximum
  {
    roll % (maximum + 1 - minimum) + minimum
  }

  /** The mine count: cells * 15.625 / 100 truncated to an integer, which is
      exactly cells * 5 / 32 (15.625 / 100 == 5 / 32). */
  function BombCount(cells: int): (n: int)
    requires 0 <= cells
    ensures 0 <= n <= cells
    ensures n * 32 <= cells * 5 < (n + 1) * 32
  {
    cells * 5 / 32
  }

  /** The cell indices random_number(0, cells - 1) yields for the rolls. */
  function Candidates(rolls: seq<nat>, cells: int): (c: seq<int>)
    requires 1 <= cells
    ensures |c| == |rolls|
    ensures forall j :: 0 <= j < |c| ==> 0 <= c[j] < cells
  {
    seq(|rolls|, j requires 0 <= j < |rolls| => RandomNumber(0, cells - 1, rolls[j]))
  }

  function Elems(s: seq<int>): set<int> {
    set v | v in s
  }

  /** Rejection sampling: walk the candidates from index k, making each one
      a mine (a candidate that already is one changes nothing), until `need`
      cells are mines or the candidates run out. */
  function Pick(cands: seq<int>, need: nat, k: nat, placed: set<int>): set<int>
    decreases |cands| - k
  {
    if |placed| >= need || k >= |cands| then placed
    else Pick(cands, need, k + 1, placed + {cands[k]})
  }

  lemma ElemsFrom(cands: seq<int>, k: nat)
    requires k < |cands|
    ensures Elems(cands[k..]) == {cands[k]} + Elems(cands[k + 1..])
  {
    assert cands[k..] == [cands[k]] + cands[k + 1..];
  }

  /** Picking only adds candidates to what is already placed. */
  lemma {:induction false} PickWithin(cands: seq<int>, need: nat, k: nat, placed: set<int>)
    requires k <= |cands|
    ensures placed <= Pick(cands, need, k, placed) <= placed + Elems(cands[k..])
    decreases |cands| - k
  {
    if |placed| < need && k < |cands| {
      PickWithin(cands, need, k + 1, placed + {cands[k]});
      ElemsFrom(cands, k);
    }
  }

  /** With enough distinct candidates, picking stops at exactly `need`. */
  lemma {:induction false} PickSize(cands: seq<int>, need: nat, k: nat, placed: set<int>)
    requires k <= |cands|
    requires |placed| <= need <= |placed + Elems(cands[k..])|
    ensures |Pick(cands, need, k, placed)| == need
    decreases |cands| - k
  {
    if |placed| < need {
      ElemsFrom(cands, k);
      assert (placed + {cands[k]}) + Elems(cands[k + 1..]) == placed + Elems(cands[k..]);
      PickSize(cands, need, k + 1, placed + {cands[k]});
    }
  }

  /** After k draws the placed cells are exactly the candidates drawn, and
      the pick goes on from candidate k. */
  ghost predicate Drawn(cands: seq<int>, need: nat, k: nat, placed: set<int>) {
    k <= |cands| && placed == Elems(cands[..k])
    && Pick(cands, need, 0, {}) == Pick(cands, need, k, placed)
  }

  lemma DrawnStart(cands: seq<int>, need: nat)
    ensures Drawn(cands, need, 0, {})
  {
  }

  /** While fewer cells are placed than there are distinct candidates, a
      candidate not yet placed lies ahead of the draws made so far. */
  lemma FreeAhead(cands: seq<int>, need: nat, k: nat, placed: set<int>) returns (j: nat)
    requires Drawn(cands, need, k, placed) && |placed| < |Elems(cands)|
    ensures k <= j < |cands| && cands[j] !in placed
  {
    var rest := Elems(cands) - placed;
    assert Elems(cands) == rest + Elems(cands) * placed;
    assert |Elems(cands) * placed| <= |placed|;
    assert |rest| > 0;
    j :| k <= j < |cands| && cands[j] !in placed;
  }

  /** Picking through a run of candidates that are already placed, up to
      one that is not, places that one and nothing else. */
  lemma {:induction false} PickRun(cands: seq<int>, need: nat, k0: nat, k: nat, placed: set<int>)
    requires |placed| < need && k0 < k <= |cands| && cands[k - 1] !in placed
    requires forall j :: k0 <= j < k - 1 ==> cands[j] in placed
    ensures Pick(cands, need, k0, placed) == Pick(cands, need, k, placed + {cands[k - 1]})
    decreases k - k0
  {
    if k0 < k - 1 {
      assert placed + {cands[k0]} == placed;
      PickRun(cands, need, k0 + 1, k, placed);
    }
  }

  /** A run of draws from k0 to k: every draw before the last was already
      placed, and the last one was not, so it is placed. */
  lemma DrawRun(cands: seq<int>, need: nat, k0: nat, k: nat, placed: set<int>)
    requires Drawn(cands, need, k0, placed) && |placed| < need
    requires k0 < k <= |cands| && cands[k - 1] !in placed
    requires forall j :: k0 <= j < k - 1 ==> cands[j] in placed
    ensures Drawn(cands, need, k, placed + {cands[k - 1]})
  {
    PickRun(cands, need, k0, k, placed);
    forall v | v in Elems(cands[..k]) ensures v in placed + {cands[k - 1]} {
      var j :| 0 <= j < k && cands[j] == v;
      if j < k0 {
        assert cands[..k0][j] == v;
      }
    }
    forall v | v in placed + {cands[k - 1]} ensures v in Elems(cands[..k]) {
      if v in placed {
        var j :| 0 <= j < k0 && cands[..k0][j] == v;
        assert cands[..k][j] == v;
      } else {
        assert cands[..k][k - 1] == v;
      }
    }
  }

  /** Once `need` cells are placed, the pick is complete. */
  lemma DrawnAll(cands: seq<int>, need: nat, k: nat, placed: set<int>)
    requires Drawn(cands, need, k, placed) && |placed| == need
    ensures Pick(cands, need, 0, {}) == placed
  {
  }

  /** The rolls draw at least as many distinct cells as there are mines to
      place; without this the game's resample loop would never end. */
  predicate Enough(rolls: seq<nat>, cells: int) {
    1 <= cells && BombCount(cells) <= |Elems(Candidates(rolls, cells))|
  }

  /** The set of mine cells the game places for the given rolls. */
  function Mines(rolls: seq<nat>, cells: int): set<int>
    requires 1 <= cells
  {
    Pick(Candidates(rolls, cells), BombCount(cells), 0, {})
  }

  /** Exactly BombCount(cells) distinct cells become mines, all in
      [0, cells). */
  lemma MinesPlaced(rolls: seq<nat>, cells: int)
    requires Enough(rolls, cells)
    ensures |Mines(rolls, cells)| == BombCount(cells)
    ensures forall m :: m in Mines(rolls, cells) ==> 0 <= m < cells
  {
    var c := Candidates(rolls, cells);
    assert c[0..] == c;
    PickWithin(c, BombCount(cells), 0, {});
    PickSize(c, BombCount(cells), 0, {});
    assert {} + Elems(c) == Elems(c);
  }
}
