/**
 * ver2.cpp: how `read_config` fills the board from the lines that follow
 * `seed=` in the configuration file. Row i of the board takes the i-th line
 * cell by cell: the characters the line has are copied as they are (a
 * newline `fgets` kept included), and every column past the line's end is
 * grass, 'G'.
 *
 * A line is the text `strlen` sees in the buffer `fgets` filled.
 */
module Seed2 {

  /** Grass: the cell written where a line has no character. */
  const GRASS := 'G'

  function Grass(n: nat): (g: seq<char>)
    ensures |g| == n && forall j :: 0 <= j < n ==> g[j] == GRASS
  {
    if n == 0 then [] else Grass(n - 1) + [GRASS]
  }

  function Min(a: nat, b: nat): nat
  {
    if a <= b then a else b
  }

  /** The board row a line gives: the line cut to `width` cells, padded with grass up to `width`. */
  function SeedRow(line: seq<char>, width: nat): seq<char>
  {
    line[..Min(|line|, width)] + Grass(width - Min(|line|, width))
  }

  /**
   * Column `j` of the row is the line's character `j` when the line has one
   * and grass otherwise.
   */
  lemma SeedRowCells(line: seq<char>, width: nat)
    ensures |SeedRow(line, width)| == width
    ensures forall j :: 0 <= j < width ==> SeedRow(line, width)[j] == if j < |line| then line[j] else GRASS
  {
  }

  /** A line at least as long as the board is cut; a shorter one is kept whole, newline included. */
  lemma SeedRowShape(line: seq<char>, width: nat)
    ensures |line| >= width ==> SeedRow(line, width) == line[..width]
    ensures |line| < width ==> SeedRow(line, width)[..|line|] == line
    ensures 0 < |line| <= width && line[|line| - 1] == '\n' ==> SeedRow(line, width)[|line| - 1] == '\n'
  {
    if |line| >= width {
      assert Grass(0) == [];
    } else {
      assert SeedRow(line, width)[..|line|] == line[..|line|];
    }
  }

  /** The inner loop of the seed reading: row `i` of `board` takes the line, cell by cell. */
  method FillRow(board: array2<char>, i: nat, line: seq<char>, width: nat)
    requires i < board.Length0 && width <= board.Length1
    modifies board
    ensures forall j :: 0 <= j < width ==> board[i, j] == SeedRow(line, width)[j]
    ensures forall r, j :: 0 <= r < board.Length0 && 0 <= j < board.Length1 && (r != i || j >= width) ==>
      board[r, j] == old(board[r, j])
  {
    SeedRowCells(line, width);
    var j := 0;
    while j < width
      invariant 0 <= j <= width
      invariant forall k :: 0 <= k < j ==> board[i, k] == SeedRow(line, width)[k]
      invariant forall r, k :: 0 <= r < board.Length0 && 0 <= k < board.Length1 && (r != i || k >= j) ==>
        board[r, k] == old(board[r, k])
    {
      if j < |line| {
        board[i, j] := line[j];
      } else {
        board[i, j] := GRASS;
      }
      j := j + 1;
    }
  }

  /**
   * The seed reading: rows 0 .. height - 1 take the lines that follow, one
   * each. When the file ends first the reading fails, after filling the
   * rows it had lines for.
   */
  method ReadSeed(board: array2<char>, lines: seq<seq<char>>, height: nat, width: nat) returns (ok: bool)
    requires height <= board.Length0 && width <= board.Length1
    modifies board
    ensures ok <==> |lines| >= height
    ensures forall r, j :: 0 <= r < Min(height, |lines|) && 0 <= j < width ==> board[r, j] == SeedRow(lines[r], width)[j]
    ensures forall r, j :: 0 <= r < board.Length0 && 0 <= j < board.Length1 && (r >= Min(height, |lines|) || j >= width) ==>
      board[r, j] == old(board[r, j])
  {
    var i := 0;
    while i < height
      invariant 0 <= i <= height && i <= |lines|
      invariant forall r, j :: 0 <= r < i && 0 <= j < width ==> board[r, j] == SeedRow(lines[r], width)[j]
      invariant forall r, j :: 0 <= r < board.Length0 && 0 <= j < board.Length1 && (r >= i || j >= width) ==>
        board[r, j] == old(board[r, j])
    {
      if i >= |lines| {
        return false;
      }
      FillRow(board, i, lines[i], width);
      i := i + 1;
    }
    return true;
  }
}
