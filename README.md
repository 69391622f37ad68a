# Frogger for the terminal, modelled in Dafny

The repository holds two versions of a terminal Frogger game. A frog starts
on the bottom row of a board read from a configuration file and jumps
towards row 1. Cars drive along road lanes. Each lane is two board rows
high, and the rows are marked 'R' in the seed.

- `ver2.cpp` is the simpler game. Every car bounces off the borders or
  changes lane. Any car that reaches the frog's cell ends the game.
- `ver4.cpp` adds more. Cars are hostile, neutral or friendly. Friendly and
  neutral cars stop when the frog is near. A friendly car can pick the frog
  up ('i') and drop it off ('o'). A car that leaves the board hides for a
  while and then reappears on a lane the registry chooses. The frog may be
  invincible for a time. The board has obstacle cells 'O' that the frog
  cannot jump onto.

Both versions keep a lane registry: `cars_on_lane[k]` counts the cars on
lane k, and `free_lanes` counts the lanes with no car. A car that has to
be placed goes to the first empty lane, or to a random lane when no lane
is empty. The central invariant proved here is that the registry always
agrees with the cars, through initial placement and through every turn of
the game (`LaneCounts.Consistent`, `Lanes4.Coupled`, `Setup2.Coupled`).

Layout:

- `common.dfy` holds `Common`: shared value types (option, key codes,
  facing, game status).
- `lane_counts.dfy` holds `LaneCounts`: the lane registry as sequences,
  the lane choice, the consistency invariant and the lemmas that carry it
  across one car's step.
- `ver4_board.dfy`, `ver4_lanes.dfy`, `ver4_frog.dfy`, `ver4_cars.dfy`
  and `ver4_game.dfy` model `ver4.cpp`:
  - `Board4`: the configuration and the road scan;
  - `Lanes4`: cars and the registry object;
  - `Frog4`: the frog object and its jumps;
  - `Cars4`: car movement, hiding and placement;
  - `Game4`: collision, status, carrying, and one update of the game
    state.
- `ver2_setup.dfy`, `ver2_play.dfy` and `ver2_seed.dfy` model `ver2.cpp`:
  - `Setup2`: configuration, cars, registry and placement;
  - `Play2`: frog, car movement, collision and status;
  - `Seed2`: filling the board from the seed lines.

The frog, the lane registry and the game are classes whose methods update
their fields, as the C structs are updated through pointers. The car
arrays are Dafny arrays of car values. A `Car*` pointer into that array
(`frogs_car`, the result of `find_near_friendly_car`) becomes an optional
index. Each call to `rand()` is a natural-number parameter ("draw"), and
the model applies the source's `%` to it. Each reading of `clock()` is a
parameter `now` in milliseconds: `CLOCKS_PER_SEC` is taken as 1000, so
`(clock() - t) * 1000 / CLOCKS_PER_SEC` is `now - t`. One update of the
game reads a single `now`.

## Model

| member | source | states |
|---|---|---|
| LaneCounts.ZeroLanes | ver4.cpp:158-180 | the number of empty lanes is at most the number of lanes, and it is zero exactly when every lane holds a car |
| LaneCounts.IndexOf | ver4.cpp:162-167 | the scan for the first lane with a given count returns -1 exactly when no lane has it; otherwise it returns the first lane that has it |
| LaneCounts.ChosenLane | ver4.cpp:158-180 | the lane `change_car_position` picks is a valid lane. While some lane is empty it picks the first empty lane; when none is, it picks the drawn lane modulo the lane count |
| LaneCounts.ChosenLaneInOrder | ver4.cpp:194-207 | when lanes 0..n-1 hold cars and the rest are empty, the next car goes to lane n |
| LaneCounts.ZeroLanesUpdate | ver4.cpp:170-179 | setting one counter changes the number of empty lanes only through that counter: minus one if it was zero, plus one if it becomes zero |
| LaneCounts.ZeroLanesAllZero | ver4.cpp:801-807 | with every counter at zero, every lane is free, as `free_lanes = road_lanes` assumes |
| LaneCounts.TracksJoin | ver4.cpp:158-180 | a car that arrives on lane k, raising only counter k, keeps the registry in step with the cars |
| LaneCounts.TracksLeave | ver4.cpp:511-529 | a car that leaves lane k, lowering only counter k, keeps the registry in step with the cars |
| LaneCounts.TracksMove | ver2.cpp:294-322 | a car that leaves lane k for lane m, lowering counter k and raising counter m, keeps the registry in step |
| LaneCounts.TracksStay | ver4.cpp:578-605 | a step that keeps the car's lane (or keeps it off every lane) needs no counter change |
| LaneCounts.TracksCompose | ver4.cpp:578-605 | two registry-tracked steps in a row are one registry-tracked step |
| LaneCounts.OccupancyUpdate | ver4.cpp:615-626 | replacing one car changes a row's occupancy only through that car: the old car's count comes off and the new car's count goes on |
| LaneCounts.ConsistentUpdate | ver4.cpp:615-626 | when one car in the array is replaced by a tracked step, the registry stays consistent with the whole array, including the free-lane count |
| LaneCounts.ConsistentAppend | ver4.cpp:194-207 | when a newly placed car is appended by a tracked step, the registry stays consistent |
| LaneCounts.SumIsLaneTotal | ver4.cpp:158-180 | for a consistent registry, the counters sum to the number of (car, lane) matches |
| LaneCounts.HitsAtMostOne | ver4.cpp:790-799 | since lane tops strictly increase, a car is on at most one lane |
| LaneCounts.LaneTotalIsResident | ver4.cpp:790-799 | the number of (car, lane) matches is the number of cars on some lane |
| LaneCounts.CountersSumToResidentCars | ver4.cpp:158-180 | for a consistent registry, the counters add up to the number of cars on a lane: no car is counted twice and none is lost |
| LaneCounts.InitiallyConsistent | ver4.cpp:845-847 | zero counters, every lane free and no cars form a consistent registry |
| Board4.AnchorsAreRoadTops | ver4.cpp:790-799 | every row the road scan records starts a road lane, and the recorded rows strictly increase |
| Board4.EveryRoadRowIsCovered | ver4.cpp:790-799 | every road row below the scan start is a recorded lane top or the row just under one |
| Board4.SetupRoads | ver4.cpp:790-799 | `setup_roads` writes the lane tops the scan finds, in order, at the front of `roads_pos`; the rest of the array stays zero |
| Lanes4.CarTypeShares | ver4.cpp:182-193 | of the ten residues of the draw, six give a hostile car, two a neutral car and two a friendly car |
| Lanes4.SetupCarsOnLane | ver4.cpp:801-807 | a fresh counter array with one zero per lane |
| Lanes4.SetupLaneDirections | ver4.cpp:809-820 | a fresh array of lane directions: 1 (right) for an even draw, -1 (left) for an odd one |
| Lanes4.Hide | ver4.cpp:511-529 | a car that leaves is hidden and on no lane, parked at (width + 5, height + 5), and due back between 500 and 1500 ms later; nothing else about it changes |
| Lanes4.Lanes.constructor | ver4.cpp:845-847 | the registry starts with its lane tops, directions and counters, and every lane free |
| Lanes4.Lanes.ChangeCarPosition | ver4.cpp:158-180 | the car goes to the lane `ChosenLane` picks and takes that lane's direction. Only that counter rises by one, and the free-lane count stays correct |
| Lanes4.Lanes.ManageLanes | ver4.cpp:511-529 | the car's own lane loses one from its counter and the car is hidden as `Hide` says |
| Lanes4.CoupledRegistered | ver4.cpp:578-605 | in a coupled game, a visible car sits on a lane whose counter is at least one |
| Lanes4.CountersMatchVisibleCars | ver4.cpp:498-529 | in a coupled game, the counters add up to the number of cars on a lane |
| Frog4.Frog.constructor | ver4.cpp:147-154 | the frog starts at column width/2 + 1 on the bottom row, facing up, with no moves, and not carried |
| Frog4.Frog.UpdateInvincibility | ver4.cpp:631-637 | the frog stays invincible exactly when it was invincible and less than INVINCIBILITY_TIME ms have passed |
| Frog4.Frog.MoveUp | ver4.cpp:403-412 | the frog climbs one row exactly when it is below row 1 and both target cells are free of obstacles; it stays on the board and stays off obstacles; moves counts the jumps |
| Frog4.Frog.MoveDown | ver4.cpp:414-423 | the frog descends one row exactly when it is above the bottom row and the target cells are clear; same guarantees as up |
| Frog4.Frog.MoveRight | ver4.cpp:425-444 | the frog moves 0 to 2 columns right, over clear columns only. It takes the full jump unless the next column is blocked or off the board; it stays on the board and off obstacles |
| Frog4.Frog.MoveLeftAsWritten | ver4.cpp:446-465 | the left jump as written. Away from x = 2 it mirrors the right jump. At x = 2 it steps to x = 1 exactly when column 1, the frog's own left cell, is clear, whatever stands in column 0. So on every board, a frog at x = 2 on clear cells with an obstacle in column 0 lands on it |
| Frog4.Frog.MoveLeft | ver4.cpp:446-465 | the left jump as intended: 0 to 2 columns left over clear columns only, on the board, and never onto an obstacle |
| Frog4.LeftStepOntoObstacle | ver4.cpp:457-461 | on a board whose row has "OGG", the frog at x = 2 that jumps left as written lands on an 'O' cell |
| Frog4.LeftStepStaysClear | ver4.cpp:457-461 | on the same board, the corrected left jump leaves the frog at x = 2, off the obstacle |
| Frog4.MovedIsExact | ver4.cpp:403-493 | `Moved` fixes the frog's next pose: for a given key, time and pose there is exactly one pose it allows, the one the frog's move methods produce |
| Frog4.Frog.FrogsMove | ver4.cpp:467-493 | the frog moves as `Moved` says. A carried frog, a non-arrow key or a jump delay that has not passed leaves the frog as it was. Otherwise the frog faces the arrow, stamps the jump time, and lands where `Stepped` says: up or down one row exactly when that row exists and its cells are clear; right or left over clear columns only, two columns unless the next column is an obstacle or past the border. It counts the jump when it moved and does not land on an obstacle from clear cells, since the left arrow takes the corrected `MoveLeft` (see Left out) |
| Cars4.IsFrogNear | ver4.cpp:364-392 | the frog is near exactly when it is within PROXIMITY (2) columns of the car's reference column and on rows y - 1 .. y + 2, one row beyond the car's two rows on each side. The reference column is x + CAR_WIDTH - 2 = x + 2 for a car driving right and x for one driving left |
| Cars4.HitsTheBorder | ver4.cpp:532-539 | a car is clear of the border exactly when its left column is past column 1 and its last column x + 3 is at most column `width` |
| Cars4.Advance | ver4.cpp:578-605 | a waiting neutral or friendly car stays put. A carrier moves one column only while it stays on the board. Any other car moves one column and, at a border, wraps on a draw divisible by 3 or hides otherwise. Type, direction and timing never change |
| Cars4.CarVisibilityCheck | ver4.cpp:498-509 | a hidden car whose time has come reappears on the chosen lane and the registry counts it there; any other car is left alone and reports whether it is visible |
| Cars4.CarsDestiny | ver4.cpp:541-553 | at a border, a draw divisible by 3 wraps the car to the far border of its lane with the counters unchanged. Otherwise the car leaves its lane, and only that lane's counter drops |
| Cars4.Drive | ver4.cpp:578-605 | a visible car's move equals `Advance`, and the registry follows the car |
| Cars4.UpdateCarPos | ver4.cpp:578-605 | one car's step: the registry follows the car; a car on a lane row is on a registered lane; the car still heads left or right; the step is the one `CarStep` describes |
| Cars4.ChangeCarDelay | ver4.cpp:607-613 | before its change time the car is unchanged. After it, the car gets a delay in [min, max) and a new change time 4 to 8 s ahead (DELAY_CHANGE_T = 4000 ms), and nothing else changes |
| Cars4.TakeTurn | ver4.cpp:615-626 | a due car makes its step and then re-draws its delay; a car not yet due is unchanged; the registry follows |
| Cars4.CarsMove | ver4.cpp:615-626 | after every car's turn the registry is still consistent with all the cars, and each car's change is its own turn |
| Cars4.NewCar | ver4.cpp:194-207 | a new car starts visible, inside the board, with a delay in [min, max), its type from the draw, and not carrying |
| Cars4.PlacedInOrderStep | ver4.cpp:158-207 | placing the next car keeps every car visible with the starting values `init_cars` gives it. While lanes remain the cars go one to a lane in lane order; once every lane holds a car, each further car goes to lane `draw % road_lanes`. Either way it takes that lane's direction |
| Cars4.InitProgressStep | ver4.cpp:194-207 | placing the next car on the chosen lane keeps the counters consistent and the lanes filled in order |
| Cars4.PlaceNewCar | ver4.cpp:194-207 | one round of `init_cars` keeps the placement invariant, including the `draw % road_lanes` lane of a car placed after every lane is taken |
| Cars4.InitCars | ver4.cpp:158-207 | `init_cars` makes `car_number` visible cars, and the counters agree with them. While lanes remain the cars fill them one to a lane in lane order; after that car j goes to lane `draws[j].lane % road_lanes`. Each car takes its lane's direction |
| Cars4.InitCarsCoupled | ver4.cpp:194-207 | after `init_cars` the game is coupled and the counters add up to the number of cars |
| Game4.LastFriendlyNear | ver4.cpp:684-695 | the result is the last friendly car near the frog, or none when there is no such car |
| Game4.FindNearFriendlyCar | ver4.cpp:684-695 | the loop's answer is `LastFriendlyNear` of the car array |
| Game4.OverlapsIsSharedCell | ver4.cpp:639-663 | the interval test of `check_collision` holds exactly when the frog's two cells share a cell with the car's 4 x 2 cells |
| Game4.CheckCollision | ver4.cpp:639-663 | a carried or invincible frog never collides. Otherwise there is a collision exactly when some car of the array shares a cell with the frog. Hidden cars are tested too, parked off the board |
| Game4.CheckGameStatus | ver4.cpp:665-679 | the game is won exactly when the frog reaches row 1, crashed exactly when not won and colliding, and goes on otherwise |
| Game4.DropSpotBehindCar | ver4.cpp:709-730 | the drop-off point is on the car's top row, behind the car. For a right-driving car it overlaps the car's cells; for a left-driving car it lies one column clear |
| Game4.TopsAsWritten | ver4.cpp:790-799 | the first `road_lanes` entries of `roads_pos` after `setup_roads`: the board's road anchors, then zeros when the board has fewer road bands than lanes |
| Game4.FewerBandsThanLanes | ver4.cpp:842-843 | on a board with one road band and `road_lanes=3`, lanes 1 and 2 both get top 0, so their cars drive on row 1, the frog's winning row. The lookup of `manage_lanes` finds lane 1 for lane 2's car, and lane 1's counter falls to -1 |
| Game4.EnoughBandsKeepLanesApart | ver4.cpp:512-518 | with at least `road_lanes` road bands the tops strictly increase, and the lane lookup finds every lane's car on its own lane |
| Game4.SetupLanes | ver4.cpp:845-852 | the registry `main` builds holds the scanned lane tops (`TopsAsWritten`), one direction per lane from the draws, zero counters and every lane free |
| Game4.Game.constructor | ver4.cpp:833-863 | the game starts with a consistent registry, the frog at its start, no car carrying it, and the cars placed as `init_cars` places them |
| Game4.Game.GetsIn | ver4.cpp:697-707 | with a friendly car found, that car carries the frog, the frog is carried and sits at (width/2, height + 1); with none found, nothing changes |
| Game4.Game.GetsOut | ver4.cpp:709-730 | a carried frog is put down at the drop spot behind its car, invincible from `now`, and the car stops carrying; an uncarried frog is left as it was |
| Game4.Game.SetCarrying | ver4.cpp:697-730 | changing only a car's carrying flag keeps the registry consistent and every car heading |
| Game4.Game.HandleKey | ver4.cpp:732-762 | 'i' on a free frog boards the last friendly car near the frog. 'o' leaves the car, dropping the frog at `DropSpot` and making it invincible from `now`. Any other key moves the frog exactly as `Moved` says, keeping its carried and invincibility state. Cars change only in their carrying flag, and the carrying invariant holds |
| Game4.Game.Update | ver4.cpp:732-762 | 'q' ends the game with nothing changed. Otherwise the key acts as in `HandleKey`, with an arrow moving the frog exactly as `Moved` says. Then every car takes its turn (`CarTurn`) with the frog's new position, and the registry stays consistent. Finally, invincibility lasts exactly while INVINCIBILITY_TIME has not elapsed since it started |
| Setup2.AllResident | ver2.cpp:145-160 | in `ver2.cpp` every car is always on some row, so every car counts |
| Setup2.Lanes.constructor | ver2.cpp:412-416 | the registry starts with its lane tops and counters, and every lane free |
| Setup2.Lanes.ChangeCarPosition | ver2.cpp:123-143 | the car moves to the lane `ChosenLane` picks; only that counter rises by one |
| Setup2.Lanes.LeaveLane | ver2.cpp:294-322 | a car leaving lane k lowers only counter k and keeps the free-lane count correct |
| Setup2.CoupledRegistered | ver2.cpp:294-322 | in a coupled game each car sits on a lane whose counter is at least one |
| Setup2.CountersMatchCars | ver2.cpp:294-322 | in a coupled game the counters add up to the number of cars |
| Setup2.NewCar | ver2.cpp:145-160 | a new car starts inside the board, heading right or left from the draw, with a delay in [min, max) |
| Setup2.CountedOnItsLane | ver2.cpp:123-143 | a car placed on a lane is counted on that lane and on no other |
| Setup2.PlacedInOrderStep | ver2.cpp:123-160 | placing the next car keeps the lanes filled in order while lanes remain. Once every lane holds a car, each further car goes to lane `draw % road_lanes` |
| Setup2.InitProgressStep | ver2.cpp:145-160 | placing the next car keeps the counters consistent and the order kept |
| Setup2.PlaceNewCar | ver2.cpp:145-160 | one round of `init_cars` keeps the placement invariant, including the `draw % road_lanes` lane of a car placed after every lane is taken |
| Setup2.InitCars | ver2.cpp:123-160 | `init_cars` makes `car_number` cars with the counters agreeing with them. The lanes are filled in order while lanes remain; after that car j goes to lane `draws[j].lane % road_lanes` |
| Setup2.InitCarsCoupled | ver2.cpp:145-160 | after `init_cars` the game is coupled and the counters add up to the number of cars |
| Play2.Jump | ver2.cpp:252-292 | a jump keeps the frog on the board and keeps its column parity. It moves two columns exactly when the arrow is left or right and the border is far enough, and one row exactly when the arrow is up or down and the row exists |
| Play2.JumpUndone | ver2.cpp:252-292 | on the board, a jump that went through is undone by the opposite arrow |
| Play2.Frog.constructor | ver2.cpp:113-119 | the frog starts at column width/2 + 1 on the bottom row, facing up, with the configured jump delay |
| Play2.Frog.FrogsMove | ver2.cpp:252-292 | before the jump delay has passed, or for a non-arrow key, the frog is unchanged; otherwise it takes `Jump`, faces the arrow and stamps the time |
| Play2.HitsTheBorder | ver2.cpp:294-322 | a car is clear of the border exactly when its left column is past column 1 and its last column x + 3 is at most column `width` |
| Play2.Rebound | ver2.cpp:294-322 | at a border the car restarts at the restart column of its new direction. On a draw divisible by 3 it turns round on its lane; otherwise it moves to the lane `ChosenLane` picks, and the registry follows |
| Play2.ChangeLane | ver2.cpp:307-320 | a car that changes lane leaves its lane's counter, lands on the lane `ChosenLane` picks with the counters then left, and restarts at the restart column of its direction; the registry follows it |
| Play2.UpdateCarPos | ver2.cpp:294-322 | one car's step keeps the car on a registered lane and inside the board, the registry follows it, and counters change only at a border |
| Play2.TakeTurn | ver2.cpp:324-333 | a due car makes its step and restamps its move time; a car not yet due is unchanged |
| Play2.CarsMove | ver2.cpp:324-333 | after every car's turn the registry is still consistent and the counters add up to the number of cars |
| Play2.CheckCollision | ver2.cpp:335-343 | a collision is reported exactly when the frog's left cell lies inside some car's 4 x 2 cells |
| Play2.LeftCellOnly | ver2.cpp:335-343 | the frog's right cell is in a car while its left cell is not exactly when the frog stands just left of the car on one of its rows; such a frog, alone with that car, is not reported as colliding |
| Play2.CheckGameStatus | ver2.cpp:345-359 | won exactly at row 1; crashed exactly when not won and colliding; otherwise the game goes on |
| Seed2.SeedRowCells | ver2.cpp:84-95 | a filled row is `width` cells long; each cell is the line's character when the line has one and 'G' otherwise |
| Seed2.SeedRowShape | ver2.cpp:84-95 | a long line is cut to the board width; a short line is kept whole, including the newline `fgets` keeps |
| Seed2.FillRow | ver2.cpp:86-94 | the inner loop writes exactly row i's first `width` cells, as `SeedRow` says |
| Seed2.ReadSeed | ver2.cpp:84-97 | the seed reading succeeds exactly when there is a line for every row. Each row that had a line is filled as `SeedRow` says, and no other cell is touched |

## Left out

- Drawing with ncurses (`draw_*`, `start_game`, the status line) is not modelled: it is output only.
- Reading the configuration file (`open_config`, `parse_basic_data`, `get_data`, `read_config`) is not modelled, except the seed fill of `ver2.cpp`. The configuration is a value with the validity conditions the game relies on.
- `ver4.cpp`'s `parse_seed` writes into a fixed buffer; its buffer overrun on long seed lines is not modelled.
- Seed2.ReadSeed takes the seed lines as given. How `fgets` splits a file into lines of at most the buffer size, and `strlen` stopping at a NUL byte, are not modelled.
- `clock()` and `rand()` are parameters; `CLOCKS_PER_SEC` is taken as 1000, and one game update reads one `now`, where the source reads the clock several times.
- `delay`, `game_play`'s outer loop, the timer display, the exit on 'q' after the loop, and `cleanup_game` are not modelled: they are timing, I/O and memory release.
- `ver2.cpp`'s `main` scans the board for road rows inline (ver2.cpp:402-411); the model takes the resulting lane tops as the `Setup2.Lanes` constructor's input.
- Game4.SetupLanes requires the board to have at least `road_lanes` road bands, so that the lane tops strictly increase. The source never checks this: `road_lanes` is read on its own (ver4.cpp:74), and the missing tops stay 0 (ver4.cpp:842-843). With fewer bands, several lanes share row 1 and the lane lookups of `manage_lanes` (ver4.cpp:512-518) and `update_car_pos` (ver2.cpp:296-301) charge the wrong counter, which can go negative. `Game4.FewerBandsThanLanes` exhibits this (see Findings); the registry invariant is not modelled for such boards.
- Game4.Game.constructor inherits the requirement of `Game4.SetupLanes`: at least `road_lanes` road bands.
- Setup2.Lanes.constructor requires strictly increasing lane tops, that is, a ver2 board with at least `road_lanes` road bands (ver2.cpp:402-411); fewer bands leave zero tops, as for ver4.
- `cars_friendly_and_neutral_move` (ver4.cpp:557-576) is not modelled: nothing calls it.
- Frog4.Frog.FrogsMove: the left arrow uses the corrected left jump `Frog4.Frog.MoveLeft`, not `frog_move_left` as written (`Frog4.Frog.MoveLeftAsWritten`, see Findings). So `FrogsMove`, `Game4.Game.HandleKey` and `Game4.Game.Update` describe the intended game. At x = 2 with an obstacle in column 0 and column 1 clear, the program as written moves the frog to x = 1 onto the obstacle, where the model keeps it at x = 2. Their "does not land on an obstacle" clause holds for the corrected jump only.
- Game4.Game.GetsOut: the frog is put down exactly at the drop spot. That spot can lie off the board: x = 0 behind a right-driving car at x = 1 just after it wraps (ver4.cpp:714), or past column `width` behind a left-driving car at the right border (ver4.cpp:717). It can also lie on the car itself (`Game4.DropSpotBehindCar`). The model keeps the source's position and has no global "frog on the board" invariant, so `Update` asks for an on-board frog only when an arrow key jumps.
- Game4.Game.GetsIn also sets the game's carried-car index, which the source does in `game_update` right after `frog_gets_in_the_car`.
- Cars4.UpdateCarPos and Play2.UpdateCarPos: in `CarStep`, a reappearing or lane-changing car is said to land on some lane; the precise lane (`ChosenLane`) is stated in the ensures of `Cars4.CarVisibilityCheck` and `Play2.Rebound`.
- Frog4.Frog.constructor: `init_frog` leaves `is_invincible` and `invincibility_start` as the caller had them; the model passes them in as parameters.
- Integer overflow is not modelled: coordinates, counters and times are unbounded integers, and none of the game's arithmetic comes near the C `int` range on a board of at most 70 x 70 cells.

## Findings

| source | as written | input that shows it | evidently intended | confidence | as-written member | corrected member |
|---|---|---|---|---|---|---|
| ver4.cpp:457-461 | at x = 2 the short left step checks board column x - 1 = 1, the cell the frog's left half already stands on, instead of column 0 where it lands | a row "OGG" with the frog at x = 2: the frog steps to x = 1 and its left half lands on the 'O' | check column x - 2 = 0, the cell the frog moves onto, as the other branches do | not executed | Frog4.Frog.MoveLeftAsWritten, Frog4.LeftStepOntoObstacle | Frog4.Frog.MoveLeft, Frog4.LeftStepStaysClear |
| ver4.cpp:842-843 | `roads_pos` is zero-initialised and `road_lanes` is never checked against the number of road bands `setup_roads` finds | a board with one road band and `road_lanes=3`: lanes 1 and 2 both get top 0, their cars drive on row 1 (where the frog wins), and `manage_lanes` charges lane 2's car to lane 1, whose counter falls to -1 | reject a configuration with fewer road bands than `road_lanes`, so every lane has its own row | not executed | Game4.TopsAsWritten, Game4.FewerBandsThanLanes | Game4.SetupLanes, Game4.EnoughBandsKeepLanesApart |
