/**
 * ver4.cpp: the game parameters read from the configuration file and the
 * scan that finds where the road bands of the board start (`setup_roads`).
 *
 * Coordinates: the board is `height` rows of `width` cells, row 0 at the
 * top; the screen shows board cell (r, c) at screen row r + 1, column c + 1,
 * and every entity position (x, y) is a screen position.
 */
module Board4 {

  /** Size of the fixed `board[MAX_NUM][MAX_NUM]` and `roads_pos[MAX_NUM]` arrays. */
  const MAX_NUM := 70
  const CAR_HEIGHT := 2
  const CAR_WIDTH := 4

  /**
   * The fields of `GameConfig` the simulation reads (the file name is left
   * out); `board` holds the `height` rows of `width` cells that were read.
   */
  datatype Config = Config(
    carNumber: int,
    roadLanes: int,
    minCarDelay: int,
    maxCarDelay: int,
    width: int,
    height: int,
    board: seq<seq<char>>)
  {
    /**
     * What the code takes for granted of a configuration: the board fits the
     * fixed arrays, there is at least one lane, and `max_car_delay` exceeds
     * `min_car_delay` (the difference is used as a modulus).
     */
    predicate Valid()
    {
      && 3 <= width <= MAX_NUM
      && 1 <= height <= MAX_NUM
      && |board| == height
      && (forall r :: 0 <= r < height ==> |board[r]| == width)
      && carNumber >= 0
      && roadLanes >= 1
      && minCarDelay < maxCarDelay
    }
  }

  /** Every row of `board` has at least one cell, so its first cell can be read. */
  predicate RowsNonEmpty(board: seq<seq<char>>)
  {
    forall r :: 0 <= r < |board| ==> |board[r]| >= 1
  }

  /**
   * The rows, from row `i` down, that `setup_roads` records as the top of a
   * road band: a row whose first cell is 'R' is recorded and the row below
   * it is skipped (a band is two rows tall, like a car).
   */
  function RoadAnchors(board: seq<seq<char>>, i: nat): seq<int>
    requires RowsNonEmpty(board)
    decreases |board| - i
  {
    if i >= |board| then []
    else if board[i][0] == 'R' then [i] + RoadAnchors(board, i + 2)
    else RoadAnchors(board, i + 1)
  }

  /**
   * Every recorded anchor is a road row at or below row `i`, anchors come in
   * increasing order at least two rows apart, and so there are at most half
   * as many anchors as rows (rounded up).
   */
  lemma {:induction false} AnchorsAreRoadTops(board: seq<seq<char>>, i: nat)
    requires RowsNonEmpty(board)
    ensures var a := RoadAnchors(board, i);
      && (forall k :: 0 <= k < |a| ==> i <= a[k] < |board| && board[a[k]][0] == 'R')
      && (forall k, l :: 0 <= k < l < |a| ==> a[k] + 2 <= a[l])
      && (i <= |board| ==> 2 * |a| <= |board| - i + 1)
    decreases |board| - i
  {
    if i < |board| {
      if board[i][0] == 'R' {
        AnchorsAreRoadTops(board, i + 2);
      } else {
        AnchorsAreRoadTops(board, i + 1);
      }
    }
  }

  /** No road row is missed: each row starting with 'R' is an anchor or lies just below one. */
  lemma {:induction false} EveryRoadRowIsCovered(board: seq<seq<char>>, i: nat, r: nat)
    requires RowsNonEmpty(board)
    requires i <= r < |board| && board[r][0] == 'R'
    ensures r in RoadAnchors(board, i) || r - 1 in RoadAnchors(board, i)
    decreases |board| - i
  {
    if board[i][0] == 'R' {
      if r > i + 1 {
        EveryRoadRowIsCovered(board, i + 2, r);
      }
    } else {
      EveryRoadRowIsCovered(board, i + 1, r);
    }
  }

  /**
   * setup_roads: writes the anchors of the board's road bands, in order, to
   * the front of the zero-initialised `roads_pos` array.
   */
  method SetupRoads(cfg: Config, roadsPos: array<int>)
    requires cfg.Valid()
    requires roadsPos.Length == MAX_NUM
    requires forall k :: 0 <= k < MAX_NUM ==> roadsPos[k] == 0
    modifies roadsPos
    ensures var a := RoadAnchors(cfg.board, 0);
      |a| <= MAX_NUM && roadsPos[..] == a + seq(MAX_NUM - |a|, _ => 0)
  {
    ghost var all := RoadAnchors(cfg.board, 0);
    AnchorsAreRoadTops(cfg.board, 0);
    var temp := 0;
    var i := 0;
    while i < cfg.height
      invariant 0 <= i <= cfg.height + 1
      invariant 0 <= temp <= MAX_NUM
      invariant roadsPos[..temp] + RoadAnchors(cfg.board, i) == all
      invariant forall k :: temp <= k < MAX_NUM ==> roadsPos[k] == 0
      decreases cfg.height - i
    {
      if cfg.board[i][0] == 'R' {
        assert |roadsPos[..temp] + RoadAnchors(cfg.board, i)| > temp;
        roadsPos[temp] := i;
        assert roadsPos[..temp + 1] == roadsPos[..temp] + [i];
        temp := temp + 1;
        i := i + 1;
      }
      i := i + 1;
    }
    assert RoadAnchors(cfg.board, i) == [];
    assert roadsPos[..temp] == all;
    assert roadsPos[..] == roadsPos[..temp] + roadsPos[temp..];
  }
}
