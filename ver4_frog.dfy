/**
 * ver4.cpp: the frog and its moves. The frog is two cells wide: standing at
 * screen position (x, y) it covers board columns x - 1 and x of board row
 * y - 1. A move never steps onto an obstacle cell 'O': a horizontal jump of
 * two cells shrinks to one cell, or to none, when the way is blocked.
 */
module Frog4 {
  import opened Common
  import opened Board4

  /** How long the frog cannot be run over after leaving a car, in ms. */
  const INVINCIBILITY_TIME := 500

  /** can_frog_jump: at least `jumpDelay` ms have passed since the last jump. */
  predicate CanFrogJump(now: int, lastJumpTime: int, jumpDelay: int)
  {
    now - lastJumpTime >= jumpDelay
  }

  /** The frog standing at (x, y) covers two board cells that exist. */
  predicate OnBoard(cfg: Config, x: int, y: int)
  {
    1 <= y <= cfg.height && 1 <= x <= cfg.width - 1
  }

  /** Board column `col` of screen row `y` holds no obstacle. */
  predicate ColumnClear(cfg: Config, y: int, col: int)
    requires cfg.Valid() && 1 <= y <= cfg.height && 0 <= col < cfg.width
  {
    cfg.board[y - 1][col] != 'O'
  }

  /** Neither of the two cells under a frog at (x, y) is an obstacle. */
  predicate OnClearCells(cfg: Config, x: int, y: int)
    requires cfg.Valid() && OnBoard(cfg, x, y)
  {
    ColumnClear(cfg, y, x - 1) && ColumnClear(cfg, y, x)
  }

  /**
   * Where an arrow takes a frog standing at (x, y) on the board: up or down
   * one row exactly when that row exists and its two cells are clear; right
   * or left over clear columns only, two columns unless the next column is
   * an obstacle or past the border.
   */
  predicate Stepped(cfg: Config, key: Key, x: int, y: int, x': int, y': int)
    requires cfg.Valid() && OnBoard(cfg, x, y) && OnBoard(cfg, x', y')
  {
    match key
    case KeyUp =>
      && x' == x && y - 1 <= y' <= y
      && (y' == y - 1 <==> y > 1 && OnClearCells(cfg, x, y - 1))
    case KeyDown =>
      && x' == x && y <= y' <= y + 1
      && (y' == y + 1 <==> y < cfg.height && OnClearCells(cfg, x, y + 1))
    case KeyRight =>
      && y' == y && x <= x' <= x + 2
      && (forall col :: x < col <= x' ==> ColumnClear(cfg, y, col))
      && (x' < x + 2 ==> !(x' + 1 <= cfg.width - 1 && ColumnClear(cfg, y, x' + 1)))
    case KeyLeft =>
      && y' == y && x - 2 <= x' <= x
      && (forall col :: x' - 1 <= col < x - 1 ==> ColumnClear(cfg, y, col))
      && (x' > x - 2 ==> !(x' - 1 >= 1 && ColumnClear(cfg, y, x' - 2)))
    case Ch(_) => x' == x && y' == y
  }

  /**
   * What `frogs_move` does to the frog's pose `p` (x, y, facing, moves, last
   * jump time), giving `p'`: nothing unless the frog is free, the key is an
   * arrow and the jump delay has passed. Then the frog faces the arrow,
   * stamps the time, goes where `Stepped` says, counts the jump when it
   * moved, and does not land on an obstacle when it stood on clear cells.
   */
  predicate Moved(cfg: Config, key: Key, now: int, carried: bool, jumpDelay: int,
                  p: (int, int, Facing, int, int), p': (int, int, Facing, int, int))
    requires cfg.Valid()
  {
    var (x, y, _, moves, lastJumpTime) := p;
    var (x', y', direction', moves', lastJumpTime') := p';
    if carried || !key.IsArrow() || !CanFrogJump(now, lastJumpTime, jumpDelay) then p' == p
    else
      && direction' == FacingOf(key) && lastJumpTime' == now
      && OnBoard(cfg, x, y) && OnBoard(cfg, x', y')
      && Stepped(cfg, key, x, y, x', y')
      && moves' == moves + (if (x', y') == (x, y) then 0 else 1)
      && (OnClearCells(cfg, x, y) ==> OnClearCells(cfg, x', y'))
  }

  /** `Moved` leaves no choice: a key, a time and a pose fix the frog's next pose. */
  lemma MovedIsExact(cfg: Config, key: Key, now: int, carried: bool, jumpDelay: int,
                     p: (int, int, Facing, int, int), p1: (int, int, Facing, int, int), p2: (int, int, Facing, int, int))
    requires cfg.Valid()
    requires Moved(cfg, key, now, carried, jumpDelay, p, p1) && Moved(cfg, key, now, carried, jumpDelay, p, p2)
    ensures p1 == p2
  {
  }

  class Frog {
    var x: int
    var y: int
    var direction: Facing
    var moves: int
    var lastJumpTime: int
    const jumpDelay: int
    var isCarried: bool
    var isInvincible: bool
    var invincibilityStart: int

    /** The fields a jump may change, as one value. */
    function Pose(): (int, int, Facing, int, int)
      reads this
    {
      (x, y, direction, moves, lastJumpTime)
    }

    /**
     * init_frog: the frog starts at the middle of the bottom row facing up.
     * `init_frog` sets neither `is_invincible` nor `invincibility_start`;
     * whatever the allocation left there is passed in.
     */
    constructor (cfg: Config, jumpDelay: int, now: int, invincible: bool, invincibilityStart: int)
      requires cfg.Valid()
      ensures x == cfg.width / 2 + 1 && y == cfg.height && OnBoard(cfg, x, y)
      ensures direction == Up && moves == 0 && lastJumpTime == now && !isCarried
      ensures this.jumpDelay == jumpDelay
      ensures isInvincible == invincible && this.invincibilityStart == invincibilityStart
    {
      x := cfg.width / 2 + 1;
      y := cfg.height;
      direction := Up;
      moves := 0;
      lastJumpTime := now;
      this.jumpDelay := jumpDelay;
      isCarried := false;
      isInvincible := invincible;
      this.invincibilityStart := invincibilityStart;
    }

    /**
     * update_invincibility: the invincibility that started at
     * `invincibilityStart` ends once INVINCIBILITY_TIME ms have passed.
     */
    method UpdateInvincibility(now: int)
      modifies this`isInvincible
      ensures isInvincible <==> old(isInvincible) && now - invincibilityStart < INVINCIBILITY_TIME
    {
      if isInvincible {
        if now - invincibilityStart >= INVINCIBILITY_TIME {
          isInvincible := false;
        }
      }
    }

    /**
     * The frog steps out of a car onto (x', y'): it is no longer carried and
     * cannot be run over from `now` on for INVINCIBILITY_TIME ms.
     */
    method Alight(x': int, y': int, now: int)
      modifies this`x, this`y, this`isCarried, this`isInvincible, this`invincibilityStart
      ensures x == x' && y == y' && !isCarried && isInvincible && invincibilityStart == now
    {
      x, y := x', y';
      isCarried := false;
      isInvincible := true;
      invincibilityStart := now;
    }

    /** frog_move_up: one row up unless at the top row or the cells above hold an obstacle. */
    method MoveUp(cfg: Config, now: int)
      requires cfg.Valid() && OnBoard(cfg, x, y)
      modifies this`y, this`moves, this`direction, this`lastJumpTime
      ensures direction == Up && lastJumpTime == now && x == old(x)
      ensures OnBoard(cfg, x, y)
      ensures y == old(y) || y == old(y) - 1
      ensures y == old(y) - 1 <==> old(y) > 1 && OnClearCells(cfg, x, old(y) - 1)
      ensures moves == old(moves) + (if y == old(y) then 0 else 1)
      ensures OnClearCells(cfg, old(x), old(y)) ==> OnClearCells(cfg, x, y)
    {
      if y > 1 {
        if cfg.board[y - 1 - 1][x] != 'O' && cfg.board[y - 1 - 1][x - 1] != 'O' {
          y := y - 1;
          moves := moves + 1;
        }
      }
      direction := Up;
      lastJumpTime := now;
    }

    /** frog_move_down: one row down unless at the bottom row or the cells below hold an obstacle. */
    method MoveDown(cfg: Config, now: int)
      requires cfg.Valid() && OnBoard(cfg, x, y)
      modifies this`y, this`moves, this`direction, this`lastJumpTime
      ensures direction == Down && lastJumpTime == now && x == old(x)
      ensures OnBoard(cfg, x, y)
      ensures y == old(y) || y == old(y) + 1
      ensures y == old(y) + 1 <==> old(y) < cfg.height && OnClearCells(cfg, x, old(y) + 1)
      ensures moves == old(moves) + (if y == old(y) then 0 else 1)
      ensures OnClearCells(cfg, old(x), old(y)) ==> OnClearCells(cfg, x, y)
    {
      if y < cfg.height {
        if cfg.board[y - 1 + 1][x] != 'O' && cfg.board[y - 1 + 1][x - 1] != 'O' {
          y := y + 1;
          moves := moves + 1;
        }
      }
      direction := Down;
      lastJumpTime := now;
    }

    /**
     * frog_move_right: the frog goes as far right as it can, up to two
     * columns: every column it steps onto is clear, and when it goes less
     * than two, the next column is an obstacle or past the right border.
     */
    method MoveRight(cfg: Config, now: int)
      requires cfg.Valid() && OnBoard(cfg, x, y)
      modifies this`x, this`moves, this`direction, this`lastJumpTime
      ensures direction == Right && lastJumpTime == now && y == old(y)
      ensures OnBoard(cfg, x, y)
      ensures old(x) <= x <= old(x) + 2
      ensures forall col :: old(x) < col <= x ==> ColumnClear(cfg, y, col)
      ensures x < old(x) + 2 ==> !(x + 1 <= cfg.width - 1 && ColumnClear(cfg, y, x + 1))
      ensures moves == old(moves) + (if x == old(x) then 0 else 1)
      ensures OnClearCells(cfg, old(x), old(y)) ==> OnClearCells(cfg, x, y)
    {
      if x < cfg.width - 2 {
        if cfg.board[y - 1][x + 2] != 'O' && cfg.board[y - 1][x + 1] != 'O' {
          x := x + 2;
          moves := moves + 1;
        } else if cfg.board[y - 1][x + 1] != 'O' {
          x := x + 1;
          moves := moves + 1;
        }
      } else if x < cfg.width - 1 {
        if cfg.board[y - 1][x + 1] != 'O' {
          x := x + 1;
          moves := moves + 1;
        }
      }
      direction := Right;
      lastJumpTime := now;
    }

    /**
     * frog_move_left as the source has it. Away from the border it mirrors
     * the move right; at x == 2 its half step tests board column 1, which
     * the frog already covers, instead of column 0, which it steps onto.
     */
    method MoveLeftAsWritten(cfg: Config, now: int)
      requires cfg.Valid() && OnBoard(cfg, x, y)
      modifies this`x, this`moves, this`direction, this`lastJumpTime
      ensures direction == Left && lastJumpTime == now && y == old(y)
      ensures OnBoard(cfg, x, y)
      ensures old(x) - 2 <= x <= old(x)
      ensures old(x) != 2 ==> forall col :: x - 1 <= col < old(x) - 1 ==> ColumnClear(cfg, y, col)
      ensures old(x) != 2 ==> x > old(x) - 2 ==> !(x - 1 >= 1 && ColumnClear(cfg, y, x - 2))
      ensures old(x) == 2 ==> (x == 1 <==> ColumnClear(cfg, y, 1)) && x >= 1
      ensures old(x) == 2 && OnClearCells(cfg, old(x), old(y)) && !ColumnClear(cfg, y, 0) ==>
        x == 1 && !OnClearCells(cfg, x, y)
      ensures moves == old(moves) + (if x == old(x) then 0 else 1)
    {
      if x > 2 {
        if cfg.board[y - 1][x - 3] != 'O' && cfg.board[y - 1][x - 2] != 'O' {
          x := x - 2;
          moves := moves + 1;
        } else if cfg.board[y - 1][x - 2] != 'O' {
          x := x - 1;
          moves := moves + 1;
        }
      } else if x > 1 {
        if cfg.board[y - 1][x - 1] != 'O' {
          x := x - 1;
          moves := moves + 1;
        }
      }
      direction := Left;
      lastJumpTime := now;
    }

    /**
     * frog_move_left with the half step at the border testing the column the
     * frog steps onto: the mirror image of MoveRight, so the frog never lands
     * on an obstacle.
     */
    method MoveLeft(cfg: Config, now: int)
      requires cfg.Valid() && OnBoard(cfg, x, y)
      modifies this`x, this`moves, this`direction, this`lastJumpTime
      ensures direction == Left && lastJumpTime == now && y == old(y)
      ensures OnBoard(cfg, x, y)
      ensures old(x) - 2 <= x <= old(x)
      ensures forall col :: x - 1 <= col < old(x) - 1 ==> ColumnClear(cfg, y, col)
      ensures x > old(x) - 2 ==> !(x - 1 >= 1 && ColumnClear(cfg, y, x - 2))
      ensures moves == old(moves) + (if x == old(x) then 0 else 1)
      ensures OnClearCells(cfg, old(x), old(y)) ==> OnClearCells(cfg, x, y)
    {
      if x > 2 {
        if cfg.board[y - 1][x - 3] != 'O' && cfg.board[y - 1][x - 2] != 'O' {
          x := x - 2;
          moves := moves + 1;
        } else if cfg.board[y - 1][x - 2] != 'O' {
          x := x - 1;
          moves := moves + 1;
        }
      } else if x > 1 {
        if cfg.board[y - 1][x - 2] != 'O' {
          x := x - 1;
          moves := moves + 1;
        }
      }
      direction := Left;
      lastJumpTime := now;
    }

    /**
     * frogs_move: an arrow key moves the frog only once the jump delay has
     * passed and only while it is not carried; 'e' and 't' pass the timing
     * gate but are not moves. Any key other than an arrow changes nothing.
     */
    method FrogsMove(cfg: Config, key: Key, now: int)
      requires cfg.Valid()
      requires key.IsArrow() && CanFrogJump(now, lastJumpTime, jumpDelay) && !isCarried ==> OnBoard(cfg, x, y)
      modifies this`x, this`y, this`moves, this`direction, this`lastJumpTime
      ensures Moved(cfg, key, now, isCarried, jumpDelay, old(Pose()), Pose())
    {
      if !CanFrogJump(now, lastJumpTime, jumpDelay) && key != Ch('e') && key != Ch('t') {
        return;
      } else if isCarried {
        return;
      }
      match key
      case KeyUp => MoveUp(cfg, now);
      case KeyDown => MoveDown(cfg, now);
      case KeyRight => MoveRight(cfg, now);
      case KeyLeft => MoveLeft(cfg, now);
      case Ch(_) =>
    }
  }

  /**
   * A frog at x == 2 on a row whose first cell is an obstacle and whose
   * second is not: the left move as written puts it on the obstacle.
   */
  method LeftStepOntoObstacle() returns (landed: char)
    ensures landed == 'O'
  {
    var cfg := Config(0, 1, 0, 1, 3, 1, ["OGG"]);
    var frog := new Frog(cfg, 0, 0, false, 0);
    assert frog.x == 2 && OnClearCells(cfg, frog.x, frog.y);
    frog.MoveLeftAsWritten(cfg, 0);
    landed := cfg.board[frog.y - 1][frog.x - 1];
  }

  /**
   * On the same row the corrected left move keeps the frog where it is,
   * on clear cells.
   */
  method LeftStepStaysClear() returns (landed: char, x: int)
    ensures landed != 'O' && x == 2
  {
    var cfg := Config(0, 1, 0, 1, 3, 1, ["OGG"]);
    var frog := new Frog(cfg, 0, 0, false, 0);
    frog.MoveLeft(cfg, 0);
    landed := cfg.board[frog.y - 1][frog.x - 1];
    x := frog.x;
  }
}
