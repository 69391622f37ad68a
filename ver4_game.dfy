/**
 * ver4.cpp: the frog and the friendly cars (`find_near_friendly_car`,
 * `frog_gets_in_the_car`, `frog_gets_out_of_the_car`), the end of the game
 * (`check_collision`, the decision of `check_game_status`), one round of
 * `game_update`, and the setup `main` does before the first round.
 *
 * The C pointer `frogs_car` into the cars array is the index of that car.
 */
module Game4 {
  import opened Common
  import opened LaneCounts
  import opened Board4
  import opened Lanes4
  import opened Frog4
  import opened Cars4

  /** A friendly car the frog standing at (fx, fy) is near enough to board. */
  predicate FriendlyNear(c: Car, fx: int, fy: int)
    requires Heading(c)
  {
    c.carType == Friendly && IsFrogNear(fx, fy, c)
  }

  /** The last car of `cars` the frog can board, if any. */
  function LastFriendlyNear(cars: seq<Car>, fx: int, fy: int): (r: Option<nat>)
    requires AllHeaded(cars)
    ensures r.Some? ==> r.value < |cars| && FriendlyNear(cars[r.value], fx, fy)
    ensures r.Some? ==> forall j :: r.value < j < |cars| ==> !FriendlyNear(cars[j], fx, fy)
    ensures r.None? ==> forall j :: 0 <= j < |cars| ==> !FriendlyNear(cars[j], fx, fy)
  {
    if cars == [] then None
    else if FriendlyNear(cars[|cars| - 1], fx, fy) then Some(|cars| - 1)
    else LastFriendlyNear(cars[..|cars| - 1], fx, fy)
  }

  /**
   * find_near_friendly_car: scans all cars, hidden ones included, and keeps
   * the last friendly car the frog is near.
   */
  method FindNearFriendlyCar(cars: array<Car>, fx: int, fy: int) returns (found: Option<nat>)
    requires AllHeaded(cars[..])
    ensures found == LastFriendlyNear(cars[..], fx, fy)
  {
    found := None;
    var i := 0;
    while i < cars.Length
      invariant 0 <= i <= cars.Length
      invariant found == LastFriendlyNear(cars[..i], fx, fy)
    {
      assert cars[..i + 1][..i] == cars[..i];
      if cars[i].carType == Friendly && IsFrogNear(fx, fy, cars[i]) {
        found := Some(i);
      }
      i := i + 1;
    }
    assert cars[..cars.Length] == cars[..];
  }

  /**
   * The frog at (fx, fy), two cells wide, and car `c`, CAR_WIDTH cells wide
   * and CAR_HEIGHT rows tall, touch: the test of `check_collision`.
   */
  predicate Overlaps(fx: int, fy: int, c: Car)
  {
    fx + 1 >= c.x && fx <= c.x + CAR_WIDTH - 1 && c.y <= fy <= c.y + CAR_HEIGHT - 1
  }

  /** The two screen cells the frog covers. */
  function FrogCells(fx: int, fy: int): set<(int, int)>
  {
    {(fx, fy), (fx + 1, fy)}
  }

  /** Cell number `i` of a car, counted row by row from its top left cell. */
  function CarCell(c: Car, i: int): (int, int)
  {
    (c.x + i % CAR_WIDTH, c.y + i / CAR_WIDTH)
  }

  /** The CAR_WIDTH * CAR_HEIGHT screen cells a car covers. */
  function CarCells(c: Car): set<(int, int)>
  {
    set i | 0 <= i < CAR_WIDTH * CAR_HEIGHT :: CarCell(c, i)
  }

  /** The interval test of `check_collision` holds exactly when the frog and the car share a cell. */
  lemma OverlapsIsSharedCell(fx: int, fy: int, c: Car)
    ensures Overlaps(fx, fy, c) <==> FrogCells(fx, fy) * CarCells(c) != {}
  {
    if Overlaps(fx, fy, c) {
      var col := if fx >= c.x then fx else fx + 1;
      var i := (col - c.x) + CAR_WIDTH * (fy - c.y);
      assert CarCell(c, i) == (col, fy);
      assert (col, fy) in FrogCells(fx, fy) * CarCells(c);
    }
  }

  /**
   * The frog dies: it is neither carried nor invincible and it shares a
   * cell with some car of the array (hidden cars included).
   */
  predicate Collides(fx: int, fy: int, carried: bool, invincible: bool, cars: seq<Car>)
  {
    !carried && !invincible && exists i :: 0 <= i < |cars| && Overlaps(fx, fy, cars[i])
  }

  /** check_collision: a carried or invincible frog never collides; otherwise every car is tested. */
  method CheckCollision(frog: Frog, cars: array<Car>) returns (hit: bool)
    ensures hit <==> Collides(frog.x, frog.y, frog.isCarried, frog.isInvincible, cars[..])
  {
    if frog.isCarried {
      return false;
    }
    if frog.isInvincible {
      return false;
    }
    var i := 0;
    while i < cars.Length
      invariant 0 <= i <= cars.Length
      invariant forall j :: 0 <= j < i ==> !Overlaps(frog.x, frog.y, cars[j])
    {
      var frogLeft := frog.x;
      var frogRight := frog.x + 1;
      var carLeft := cars[i].x;
      var carRight := cars[i].x + CAR_WIDTH - 1;
      var carTop := cars[i].y;
      var carBottom := cars[i].y + CAR_HEIGHT - 1;
      if frogRight >= carLeft && frogLeft <= carRight && frog.y >= carTop && frog.y <= carBottom {
        assert Overlaps(frog.x, frog.y, cars[..][i]);
        return true;
      }
      i := i + 1;
    }
    return false;
  }

  /**
   * The decision of check_game_status: reaching row 1 wins even when a car
   * is there too; otherwise a collision ends the game.
   */
  method CheckGameStatus(frog: Frog, cars: array<Car>) returns (s: Status)
    ensures s == Won <==> frog.y == 1
    ensures s == Crashed <==> frog.y != 1 && Collides(frog.x, frog.y, frog.isCarried, frog.isInvincible, cars[..])
    ensures s == Ongoing <==> frog.y != 1 && !Collides(frog.x, frog.y, frog.isCarried, frog.isInvincible, cars[..])
  {
    if frog.y == 1 {
      return Won;
    }
    var hit := CheckCollision(frog, cars);
    if hit {
      return Crashed;
    }
    return Ongoing;
  }

  /**
   * Where `frog_gets_out_of_the_car` puts the frog: on the car's top row,
   * just behind the car.
   */
  function DropSpot(c: Car): (int, int)
  {
    (if c.direction == 1 then c.x - 1 else c.x + CAR_WIDTH + 1, c.y)
  }

  /**
   * The frog lands behind the car it leaves: behind a car driving right its
   * right cell is the car's back column, so it lands on the car; behind a car
   * driving left one free column separates them. Only the invincibility
   * started on leaving saves the frog in the first case.
   */
  lemma DropSpotBehindCar(c: Car)
    requires Heading(c)
    ensures var (fx, fy) := DropSpot(c);
      && fy == c.y
      && (c.direction == 1 ==> fx < c.x)
      && (c.direction == -1 ==> fx > c.x + CAR_WIDTH - 1)
      && (Overlaps(fx, fy, c) <==> c.direction == 1)
      && (c.direction == -1 ==> !Overlaps(fx - 1, fy, c))
  {
  }

  /**
   * The lane registry as `main` sets it up: the first `road_lanes` road
   * anchors of the board, every counter zero, every lane free and the lane
   * directions drawn by `setup_lane_directions`.
   */
  method SetupLanes(cfg: Config, directionDraws: seq<nat>) returns (lanes: Lanes)
    requires cfg.Valid()
    requires cfg.roadLanes <= |RoadAnchors(cfg.board, 0)|
    requires |directionDraws| == cfg.roadLanes
    ensures fresh(lanes) && fresh(lanes.carsOnLane) && lanes.Valid()
    ensures lanes.roadsPos == RoadAnchors(cfg.board, 0)[..cfg.roadLanes] == TopsAsWritten(cfg.board, cfg.roadLanes)
    ensures forall k :: 0 <= k < cfg.roadLanes ==>
      lanes.direction[k] == if directionDraws[k] % 2 == 0 then 1 else -1
    ensures forall k :: 0 <= k < lanes.carsOnLane.Length ==> lanes.carsOnLane[k] == 0
    ensures lanes.freeLanes == cfg.roadLanes
  {
    var anchors := new int[MAX_NUM](_ => 0);
    SetupRoads(cfg, anchors);
    ghost var a := RoadAnchors(cfg.board, 0);
    AnchorsAreRoadTops(cfg.board, 0);
    var roadsPos := anchors[..cfg.roadLanes];
    assert roadsPos == a[..cfg.roadLanes];
    var counts := SetupCarsOnLane(cfg.roadLanes);
    var dirs := SetupLaneDirections(cfg.roadLanes, directionDraws);
    lanes := new Lanes(roadsPos, counts, dirs[..]);
  }

  /**
   * The first `roadLanes` entries of `roads_pos` after `setup_roads`, as the
   * code leaves them: the road anchors of the board, then the zeros the array
   * was initialised with when the board has fewer road bands than lanes.
   */
  function TopsAsWritten(board: seq<seq<char>>, roadLanes: nat): (tops: seq<int>)
    requires RowsNonEmpty(board)
    ensures var a := RoadAnchors(board, 0);
      && |tops| == roadLanes
      && (forall k :: 0 <= k < roadLanes && k < |a| ==> tops[k] == a[k])
      && (forall k :: |a| <= k < roadLanes ==> tops[k] == 0)
  {
    var a := RoadAnchors(board, 0);
    if roadLanes <= |a| then a[..roadLanes] else a + seq(roadLanes - |a|, _ => 0)
  }

  /**
   * A board with one road band read with `road_lanes=3`: lanes 1 and 2 keep
   * the top 0, so their cars drive on row 1, the row where the frog wins.
   * The lane lookup of `manage_lanes` (the first lane whose top is the car's
   * row minus one) finds lane 1 for a car of lane 2. Once lanes 2 and 1 have
   * each lost their one car, lane 1's counter is -1 and lane 2's is still 1.
   */
  lemma FewerBandsThanLanes()
    ensures var tops := TopsAsWritten(["GGG", "RGG", "RGG", "GGG"], 3);
      && tops == [1, 0, 0] && !StrictlyIncreasing(tops)
      && tops[1] + 1 == 1 && tops[2] + 1 == 1
      && IndexOf(tops, tops[2]) == 1
      && var counts := [1, 1, 1];
         var once := counts[IndexOf(tops, tops[2]) := counts[IndexOf(tops, tops[2])] - 1];
         var twice := once[IndexOf(tops, tops[1]) := once[IndexOf(tops, tops[1])] - 1];
         twice == [1, -1, 1]
  {
    var board := ["GGG", "RGG", "RGG", "GGG"];
    assert RoadAnchors(board, 0) == [1];
    var tops := TopsAsWritten(board, 3);
    assert tops[1] == tops[2];
  }

  /**
   * With at least `roadLanes` road bands the lane tops are distinct and
   * increasing, so the lane lookup finds every lane's car on its own lane.
   */
  lemma EnoughBandsKeepLanesApart(board: seq<seq<char>>, roadLanes: nat)
    requires RowsNonEmpty(board) && roadLanes <= |RoadAnchors(board, 0)|
    ensures var tops := TopsAsWritten(board, roadLanes);
      && tops == RoadAnchors(board, 0)[..roadLanes] && StrictlyIncreasing(tops)
      && forall k :: 0 <= k < roadLanes ==> IndexOf(tops, tops[k]) == k
  {
    AnchorsAreRoadTops(board, 0);
    var tops := TopsAsWritten(board, roadLanes);
    forall k | 0 <= k < roadLanes
      ensures IndexOf(tops, tops[k]) == k
    {
      var r := IndexOf(tops, tops[k]);
      assert r != -1;
      assert !(r < k) && !(k < r);
    }
  }

  class Game {
    const cfg: Config
    const frog: Frog
    const cars: array<Car>
    const lanes: Lanes
    /** `frogs_car`: the car carrying the frog. */
    var frogsCar: Option<nat>

    /**
     * The frog is carried exactly when `frogsCar` names a car; that car is a
     * friendly car carrying it and no other car carries anything; a carried
     * frog waits at (width / 2, height + 1), off the board.
     */
    ghost predicate CarryHolds()
      reads this, frog, cars
    {
      && (frog.isCarried <==> frogsCar.Some?)
      && (frogsCar.Some? ==>
            frogsCar.value < cars.Length && cars[frogsCar.value].carryingFrog
            && cars[frogsCar.value].carType == Friendly)
      && (forall i :: 0 <= i < cars.Length && cars[i].carryingFrog ==> frogsCar == Some(i))
      && (frog.isCarried ==> frog.x == cfg.width / 2 && frog.y == cfg.height + 1)
    }

    ghost predicate Valid()
      reads this, frog, cars, lanes, lanes.carsOnLane
    {
      && cfg.Valid() && cars.Length == cfg.carNumber
      && Coupled(lanes, cars[..]) && AllHeaded(cars[..])
      && CarryHolds()
    }

    /**
     * The setup of `main`: the road anchors of the board, zero counters,
     * random lane directions, the frog at its start and the cars placed by
     * `init_cars`; nobody is carried.
     */
    constructor (cfg: Config, jumpDelay: int, now: int, invincible: bool, invincibilityStart: int,
                 directionDraws: seq<nat>, carDraws: seq<InitDraws>)
      requires cfg.Valid()
      requires cfg.roadLanes <= |RoadAnchors(cfg.board, 0)|
      requires |directionDraws| == cfg.roadLanes && |carDraws| == cfg.carNumber
      ensures Valid() && frogsCar == None
      ensures lanes.roadsPos == RoadAnchors(cfg.board, 0)[..cfg.roadLanes]
      ensures forall k :: 0 <= k < cfg.roadLanes ==>
        lanes.direction[k] == if directionDraws[k] % 2 == 0 then 1 else -1
      ensures frog.x == cfg.width / 2 + 1 && frog.y == cfg.height && frog.moves == 0
      ensures InitProgress(cfg, lanes.roadsPos, lanes.direction, lanes.carsOnLane[..], lanes.freeLanes,
                           cars[..], now, carDraws)
    {
      var lanes := SetupLanes(cfg, directionDraws);
      var frog := new Frog(cfg, jumpDelay, now, invincible, invincibilityStart);
      var cars := InitCars(cfg, lanes, now, carDraws);
      InitCarsCoupled(cfg, lanes, cars[..], now, carDraws);
      this.cfg := cfg;
      this.frog := frog;
      this.cars := cars;
      this.lanes := lanes;
      frogsCar := None;
    }

    /**
     * frog_gets_in_the_car, followed by `*frogs_car = friendly_car`: the frog
     * boards the car found, if any, and waits off the board.
     */
    method GetsIn(found: Option<nat>)
      requires Valid() && !frog.isCarried
      requires found.Some? ==> found.value < cars.Length && cars[found.value].carType == Friendly
      modifies this`frogsCar, cars, frog`isCarried, frog`x, frog`y
      ensures Valid()
      ensures frogsCar == found && frog.isCarried == found.Some?
      ensures found.None? ==> unchanged(cars, frog)
      ensures found.Some? ==>
        && cars[..] == old(cars[..])[found.value := old(cars[found.value]).(carryingFrog := true)]
        && frog.x == cfg.width / 2 && frog.y == cfg.height + 1
    {
      if found.Some? {
        var i := found.value;
        var c' := cars[i].(carryingFrog := true);
        SetCarrying(i, c');
        frog.isCarried := true;
        frog.x := cfg.width / 2;
        frog.y := cfg.height + 1;
      }
      frogsCar := found;
    }

    /**
     * frog_gets_out_of_the_car: the carried frog leaves its car, lands
     * behind it (DropSpot) and is invincible from `now`; without a car
     * nothing changes.
     */
    method GetsOut(now: int)
      requires Valid()
      modifies this`frogsCar, cars, frog`isCarried, frog`x, frog`y, frog`isInvincible, frog`invincibilityStart
      ensures Valid() && frogsCar == None && !frog.isCarried
      ensures old(frogsCar).None? ==> unchanged(cars, frog)
      ensures old(frogsCar).Some? ==>
        var i := old(frogsCar).value;
        && i < cars.Length
        && cars[..] == old(cars[..])[i := old(cars[i]).(carryingFrog := false)]
        && (frog.x, frog.y) == DropSpot(old(cars[i]))
        && frog.isInvincible && frog.invincibilityStart == now
    {
      if frogsCar.Some? {
        var i := frogsCar.value;
        var c := cars[i];
        SetCarrying(i, c.(carryingFrog := false));
        var (fx, fy) := DropSpot(c);
        frog.Alight(fx, fy, now);
        frogsCar := None;
      }
    }

    /** Flips the carrying flag of car `i`; its place in the lane registry does not change. */
    method SetCarrying(i: nat, c': Car)
      requires cfg.Valid() && cars.Length == cfg.carNumber
      requires Coupled(lanes, cars[..]) && AllHeaded(cars[..])
      requires i < cars.Length && c' == cars[i].(carryingFrog := c'.carryingFrog)
      modifies cars
      ensures Coupled(lanes, cars[..]) && AllHeaded(cars[..])
      ensures cars[..] == old(cars[..])[i := c']
    {
      TracksStay(lanes.roadsPos, lanes.carsOnLane[..], RowOf, cars[i], c');
      ConsistentUpdate(lanes.roadsPos, lanes.carsOnLane[..], lanes.freeLanes, lanes.carsOnLane[..],
                       lanes.freeLanes, cars[..], RowOf, i, c');
      cars[i] := c';
    }

    /**
     * The key dispatch of game_update for a key other than 'q': 'i' boards
     * the car found unless the frog is already carried, 'o' leaves the car,
     * any other key goes to `frogs_move`. Cars change only in whether they
     * carry the frog.
     */
    method HandleKey(key: Key, now: int, friendly: Option<nat>)
      requires Valid() && key != Ch('q')
      requires friendly == LastFriendlyNear(cars[..], frog.x, frog.y)
      requires key.IsArrow() && CanFrogJump(now, frog.lastJumpTime, frog.jumpDelay) && !frog.isCarried ==>
        OnBoard(cfg, frog.x, frog.y)
      modifies this`frogsCar, frog, cars
      ensures Valid()
      ensures forall i :: 0 <= i < cars.Length ==> cars[i] == old(cars[i]).(carryingFrog := cars[i].carryingFrog)
      ensures key == Ch('i') && !old(frog.isCarried) ==> frogsCar == friendly
      ensures key == Ch('o') ==> frogsCar == None && !frog.isCarried
      ensures key == Ch('o') && old(frogsCar).Some? ==>
        && (frog.x, frog.y) == DropSpot(old(cars[frogsCar.value]))
        && frog.isInvincible && frog.invincibilityStart == now
      ensures key != Ch('i') && key != Ch('o') ==> frogsCar == old(frogsCar)
      ensures !(key == Ch('i') && !old(frog.isCarried)) && key != Ch('o') ==>
        && Moved(cfg, key, now, old(frog.isCarried), frog.jumpDelay, old(frog.Pose()), frog.Pose())
        && frog.isCarried == old(frog.isCarried)
      ensures !(key == Ch('o') && old(frogsCar).Some?) ==>
        frog.isInvincible == old(frog.isInvincible) && frog.invincibilityStart == old(frog.invincibilityStart)
    {
      if key == Ch('i') && !frog.isCarried {
        GetsIn(friendly);
      } else if key == Ch('o') {
        GetsOut(now);
      } else {
        MoveFrog(key, now);
      }
    }

    /**
     * A key other than 'i', 'o' and 'q' goes to `frogs_move`: only the
     * frog's pose can change, and a carried frog keeps its seat.
     */
    method MoveFrog(key: Key, now: int)
      requires Valid()
      requires key.IsArrow() && CanFrogJump(now, frog.lastJumpTime, frog.jumpDelay) && !frog.isCarried ==>
        OnBoard(cfg, frog.x, frog.y)
      modifies frog`x, frog`y, frog`moves, frog`direction, frog`lastJumpTime
      ensures Valid()
      ensures Moved(cfg, key, now, frog.isCarried, frog.jumpDelay, old(frog.Pose()), frog.Pose())
    {
      frog.FrogsMove(cfg, key, now);
    }

    /**
     * game_update: the friendly car near the frog is looked up first; 'q'
     * ends the game with nothing changed; 'i' boards that car unless the
     * frog is already carried; 'o' leaves the car; any other key goes to
     * `frogs_move`. Then every car takes its turn and the invincibility
     * window is checked.
     */
    method Update(key: Key, now: int, draws: seq<CarDraws>) returns (goOn: bool)
      requires Valid() && |draws| == cars.Length
      requires key.IsArrow() && CanFrogJump(now, frog.lastJumpTime, frog.jumpDelay) && !frog.isCarried ==>
        OnBoard(cfg, frog.x, frog.y)
      modifies this`frogsCar, frog, cars, lanes.carsOnLane, lanes`freeLanes
      ensures Valid()
      ensures goOn <==> key != Ch('q')
      ensures !goOn ==> frogsCar == old(frogsCar) && unchanged(frog, cars, lanes, lanes.carsOnLane)
      ensures key == Ch('i') && !old(frog.isCarried) ==>
        frogsCar == LastFriendlyNear(old(cars[..]), old(frog.x), old(frog.y))
      ensures key == Ch('o') ==> frogsCar == None && !frog.isCarried
      ensures key == Ch('o') && old(frogsCar).Some? ==>
        && (frog.x, frog.y) == DropSpot(old(cars[frogsCar.value]))
        && frog.isInvincible && frog.invincibilityStart == now
      ensures key != Ch('i') && key != Ch('o') ==> frogsCar == old(frogsCar)
      ensures goOn && !(key == Ch('i') && !old(frog.isCarried)) && key != Ch('o') ==>
        Moved(cfg, key, now, old(frog.isCarried), frog.jumpDelay, old(frog.Pose()), frog.Pose())
      ensures goOn && !(key == Ch('o') && old(frogsCar).Some?) ==>
        && frog.invincibilityStart == old(frog.invincibilityStart)
        && (frog.isInvincible <==> old(frog.isInvincible) && now - old(frog.invincibilityStart) < INVINCIBILITY_TIME)
      ensures goOn ==> forall i :: 0 <= i < cars.Length ==>
        CarTurn(cfg, lanes.roadsPos, lanes.direction, old(cars[i]).(carryingFrog := cars[i].carryingFrog),
                cars[i], frog.x, frog.y, now, draws[i])
    {
      var friendly := FindNearFriendlyCar(cars, frog.x, frog.y);
      if key == Ch('q') {
        return false;
      }
      HandleKey(key, now, friendly);
      CarsTurnAndTick(now, draws);
      return true;
    }

    /**
     * The end of game_update: every car takes its turn against the frog's
     * square, then the invincibility window is checked.
     */
    method CarsTurnAndTick(now: int, draws: seq<CarDraws>)
      requires Valid() && |draws| == cars.Length
      modifies frog`isInvincible, cars, lanes.carsOnLane, lanes`freeLanes
      ensures Valid()
      ensures frog.isInvincible <==> old(frog.isInvincible) && now - frog.invincibilityStart < INVINCIBILITY_TIME
      ensures forall i :: 0 <= i < cars.Length ==>
        CarTurn(cfg, lanes.roadsPos, lanes.direction, old(cars[i]), cars[i], frog.x, frog.y, now, draws[i])
      ensures forall i :: 0 <= i < cars.Length ==>
        cars[i].carType == old(cars[i].carType) && cars[i].carryingFrog == old(cars[i].carryingFrog)
    {
      CarsMove(cfg, cars, lanes, frog.x, frog.y, now, draws);
      frog.UpdateInvincibility(now);
    }
  }
}
