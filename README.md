# rirpg core, modelled in Dafny

This project models the grid logic of the Go roguelike rirpg and proves
properties of it. It covers four parts:

- **The level of game/game.go.** The text-map parser (`loadLevelFromFile`
  without the file reading), the walkability rule `canWalk`, the door rule
  `checkDoor`, player movement in `handleInput`, the 4-neighbour enumeration
  `getNeighbors`, the breadth-first flood `bfs` and the A* search `astar`.
- **The level generator of worldgen/worldgen.go.** It puts a wall border
  around a square map, classifies interior cells by noise thresholds,
  collects the open cells, drops 211 features onto them by random index,
  and writes the map out as text.
- **The integer part of the noise generator of worldgen/perlin.go.** This
  is the permutation table `p` (draw order, countdown shuffle, duplication),
  the `g1` gradients, and the lattice indices and table lookups of `noise2`.
- **The monsters of game/monsters.go.** These are the two constructors, the
  position-to-monster map update of `Move`, and the action-point spending of
  `Update`.

Modules follow the source: `Grid` (tiles, positions, `canWalk`,
`getNeighbors`, reachability), `Search` (`bfs`, `astar`), `Parse`
(`loadLevelFromFile`), `Game` (the `Level` class with `checkDoor` and
`handleInput`), `WorldGen`, `Perlin`, `Floats` (`int(float)`/`math.Trunc`
and `math.Min` on exact reals) and `Monsters`.

State that the source updates in place is imperative here:

- The game's level is a class whose map, player and Debug marks are
  reassigned.
- The generator's `genMap` is an `array2` indexed `[x, y]` as in the source,
  and `openTiles` is an `array`.
- The Perlin table is an `array` filled by three loops.
- A monster is a class, and the level's monster map is a field.

Each method is proved against a specification function on values
(`ParseSpec`, `Final`/`Rows`, `Table`, `OpenDoorAt`, `StepCost`). The
properties are proved as lemmas about those functions.

Inputs that come from outside the core are parameters:

- the lines the file scanner yields;
- the noise sample at each cell;
- the indices `rand.Intn` returns;
- the values `r.Int()` returns;
- the path a monster follows;
- the outcome of `Attack`, and whether the monster is next to the player.

The model keeps the code's behaviour where it differs from what the
game looks meant to do:

- **Feature placement.** `placeTile` drops the slice that `remove`
  returns, so the open list never shrinks. Placement is therefore with
  repetition: one feature can overwrite another (`WorldGen.RepeatedPlacement`).
  It is not placement on distinct cells.
- **Shuffle.** The shuffle starts at `i = B`, so `p[B]` takes part.
  `p[0..B-1]` is then a permutation only when the first shuffle draw is a
  multiple of 256 (`Perlin.TableMultiset`, `Perlin.TableMissing`).
- **Out-of-range indexing.** `canWalk` indexes the map directly and does
  not return false outside it. The searches require `Confined`: every cell
  reachable from the start has its four neighbours in the map. The level
  class keeps the stronger invariant `Sealed` (see "## Left out").
- **Spawn resolution.** A spawn marker is resolved by looking back at the
  2×2 window ending at its own cell, not by a search. A marker in row 0 or
  column 0 makes the source index -1.
- **Empty path in `Update`.** An empty path makes the source index
  `path[-1]` and panic. The turn is not passed.
- **A\* result.** On reaching the goal, A\* marks the back-pointer chain in
  `level.Debug`. It returns no path. The model returns that chain together
  with a ghost trace of the loop's states, so the contract can say which
  rounds produced it.

## Model

| member | source | states |
|---|---|---|
| Grid.CanWalk | game/game.go:150-158 | canWalk on an in-bounds position, a function of its tile alone; which tiles pass is stated by Grid.WalkableTiles |
| Grid.WalkableTiles | game/game.go:150-158 | canWalk is true exactly for DirtFloor, OpenDoor and the unresolved spawn marker; walls, closed doors and blank void block |
| Grid.Neighbors | game/game.go:202-223 | at most four results; a position is returned iff it is an adjacent walkable cell; results come in the order right, left, up, down |
| Grid.FencedConfined | game/game.go:202-223 | on a map whose walkable cells all have their four neighbours in the map, every cell reachable from a walkable start does too, so getNeighbors stays in range |
| Grid.ClosedHoldsReachable | game/game.go:233-246 | a Step-closed set holding the start holds every position reachable from it (used for the bfs and astar completeness results) |
| Search.Bfs | game/game.go:226-247 | the visited set holds start, every other visited position is an in-bounds walkable cell, the set is closed under getNeighbors, it equals the set reachable from start, and each visited position was enqueued exactly once |
| Search.Visit | game/game.go:234-245 | one round of the bfs loop: visited gains exactly the getNeighbors of current, the frontier gains exactly those not visited before, in getNeighbors order; the frontier stays inside visited, every visited position stays reachable, and the count of enqueued positions stays the size of visited |
| Search.Enqueue | game/game.go:237-245 | the loop over getNeighbors appends each neighbour not yet visited to the frontier, in order, and marks every neighbour visited |
| Search.UnseenMembers | game/game.go:238-241 | the appended neighbours are exactly the neighbours not visited before the round, and none when all were |
| Search.VisitDone | game/game.go:233-246 | after a round the frontier stays inside visited, every visited position is reachable, and every visited position off the frontier has all its neighbours visited |
| Search.PopIndex | game/game.go:260-261 | the popped entry has minimal priority and every earlier entry has strictly greater priority: the entry sort.Stable puts first |
| Search.Relax | game/game.go:281-290 | one relaxation of next from cur; what it changes is stated by Search.RelaxEffect |
| Search.RelaxEffect | game/game.go:280-290 | a neighbour gets cost cur + 1, parent cur and a frontier entry with priority newCost + Manhattan distance exactly when it is new or strictly cheaper; otherwise nothing changes; no other cost or parent changes and no cost grows |
| Search.RelaxRooted | game/game.go:283-289 | a push for any position other than start keeps cameFrom[start] == start and costSoFar[start] == 0 |
| Search.RelaxBounded | game/game.go:283-289 | a push keeps every cost below the number of known positions |
| Search.RelaxLinked | game/game.go:283-289 | a push across a Step keeps every parent link a Step from a position of strictly lower cost |
| Search.RelaxTracked | game/game.go:283-288 | a push keeps every frontier position among the known ones |
| Search.RelaxKeepsInv | game/game.go:280-290 | relaxation keeps cameFrom[start] == start, costSoFar[start] == 0, every other parent a Step away at strictly lower cost, and every cost below the number of known positions |
| Search.RelaxPotential | game/game.go:283-289 | a relaxation never lets a cost rise and a push strictly lowers one, which bounds the number of pushes and makes astar terminate |
| Search.Initial | game/game.go:251-256 | the start state: start alone in the frontier with priority 1, its own parent, at cost 0; Search.InitialInv states it satisfies the loop invariant |
| Search.InitialInv | game/game.go:251-257 | the start state (start pushed with priority 1, its own parent, cost 0) satisfies the astar loop invariant |
| Search.Exhausted | game/game.go:259-292 | when the frontier runs out, every known position has been expanded, so the goal is unreachable |
| Search.Round | game/game.go:259-291 | one round that does not find the goal: pop the entry sort.Stable puts first and relax its getNeighbors in order; Search.Advance proves the loop body computes it |
| Search.Advance | game/game.go:259-291 | a round whose popped entry is not the goal has a known, interior position to pop, yields exactly Round, keeps the loop invariant, and lowers the termination measure |
| Search.Expand | game/game.go:280-291 | the inner loop relaxes every neighbour in getNeighbors order (RelaxAll), keeps the loop invariant, leaves current expanded, and never raises the termination measure |
| Search.TraceExtend | game/game.go:259-292 | appending a Round of the last state, which did not pop the goal, to a trace of the loop gives a trace |
| Search.KnownReachable | game/game.go:280-290 | every position astar has a cost for is reachable from start, along cameFrom |
| Search.KnownInterior | game/game.go:280 | so on a confined map every position astar pops has its four neighbours in the map |
| Search.Astar | game/game.go:250-293 | with the ghost trace of the loop's states (the initial state, then one Round per popped non-goal entry): the chain is empty iff the last frontier is empty; otherwise the last state pops the goal and the chain runs goal to start, each position followed by its cameFrom entry in that state; the chain is empty exactly when the goal is unreachable, every link is a Step, and no position repeats |
| Search.BackPointers | game/game.go:264-272 | the walk starts at goal, each position is followed by its cameFrom entry, it ends at start, each link is a Step, and no position repeats (costs fall strictly) |
| Search.BackExtend | game/game.go:266-271 | one more cameFrom step from a position other than start extends the chain, at strictly lower cost |
| Search.BackWalkReachable | game/game.go:264-272 | a back-pointer chain from goal to start proves goal reachable from start |
| Search.ChainDistinct | game/game.go:266-271 | along a cameFrom chain costs fall strictly, so no position occurs twice |
| Parse.Longest | game/game.go:86-94 | the longest line: every line is at most that long and, unless it is 0, some line has that length |
| Parse.LongestRow | game/game.go:84-94 | the first loop computes the longest line length |
| Parse.Blanks | game/game.go:95-99 | the allocation gives one all-Blank row of the longest length per line |
| Parse.Decode | game/game.go:105-122 | the tile switch of the decoding loop; its table is stated by Parse.DecodeTable |
| Parse.DecodeTable | game/game.go:104-123 | space, tab, LF and CR decode to Blank, '#' '|' '/' '.' to StoneWall, ClosedDoor, OpenDoor, DirtFloor, 'P' to Pending, and every other character is rejected |
| Parse.LastP | game/game.go:116-118 | the index returned holds a 'P' and no later character does, or it is -1 |
| Parse.PlayerIsLastP | game/game.go:101-125 | the player is the last 'P' in row-major order, or (0, 0) when the text has none |
| Parse.DecodeAll | game/game.go:101-125 | the decoding loop succeeds iff every character is valid, and then yields the decoded grid and the last 'P' position |
| Parse.Resolved | game/game.go:129-140 | the tile a cell ends with after the 2×2 look-back; stated by Parse.ResolvedKeeps and Parse.ResolvedNearFloor |
| Parse.ResolvedMap | game/game.go:127-143 | the map after the resolution pass; Parse.ResolveAll proves the loop computes it |
| Parse.ResolvedKeeps | game/game.go:127-143 | resolution changes only spawn markers, and only into DirtFloor |
| Parse.ResolvedNearFloor | game/game.go:129-138 | a marker with DirtFloor at (x-1,y-1), (x-1,y) or (x,y-1) becomes DirtFloor |
| Parse.ResolveAll | game/game.go:127-143 | the resolution loop fails iff some marker lies in row 0 or column 0, and otherwise yields the resolved grid |
| Parse.Settle | game/game.go:129-140 | the 2×2 look-back of one marker gives the resolved tile for that cell, leaving the rest of the scan's progress intact |
| Parse.EdgeSpawnDecoded | game/game.go:116-119 | a 'P' lies in row 0 or column 0 of the text iff a Pending cell lies there in the decoded grid |
| Parse.ParseShape | game/game.go:86-125 | a parsed map has one row per line, each as long as the longest line, Blank past each line's end, and every non-'P' character's decoded tile |
| Parse.ParsedPlayerWalkable | game/game.go:116-143 | with a 'P' in the text, the parsed player stands in bounds on a walkable tile |
| Parse.Parse | game/game.go:77-146 | loadLevelFromFile yields exactly ParseSpec: InvalidCharacter, SpawnOnEdge, or the resolved grid with the last 'P' as player |
| Game.Target | game/game.go:172-195 | each direction aims at the adjacent cell on that side (Up decreases y) |
| Game.OpenDoorAt | game/game.go:161-166 | the map after checkDoor at p; stated by Game.OpenDoorCells, Game.OpenDoorWalkable and Game.OpenDoorIdempotent |
| Game.OpenDoorCells | game/game.go:161-166 | checkDoor keeps the map's shape, leaves an open door at p exactly when p held a door, and changes no other cell |
| Game.OpenDoorWalkable | game/game.go:150-166 | after checkDoor at p exactly one more cell can be walked on, p itself, and only if it was a closed door |
| Game.OpenDoorIdempotent | game/game.go:161-166 | checkDoor twice at the same cell is checkDoor once |
| Game.OpenDoorSealed | game/game.go:161-166 | opening a door keeps every walkable cell off the map's edge |
| Game.Level.CheckDoor | game/game.go:161-166 | the map becomes OpenDoorAt(old map, pos); player and Debug marks are unchanged |
| Game.Level.Move | game/game.go:172-195 | one directional step: to t if walkable, else the door at t is tried; the level stays valid |
| Game.Level.HandleInput | game/game.go:169-199 | a move goes one step when the target is walkable and otherwise only the target's door may open; Search leaves map and player alone and sets Debug to the positions of the chain that Search.Astar's trace yields (Search.Searched) toward the goal two right and one down, empty iff that goal is unreachable; other inputs change nothing; the level stays valid |
| Game.Level.constructor | game/game.go:95-99 | a level holds the parsed map and player, with no Debug marks; a sealed parsed map with the player on a walkable cell gives a valid level |
| WorldGen.Classify | worldgen/worldgen.go:29-39 | the interior tile for a noise value; stated by WorldGen.ClassifyBands and WorldGen.ClassifyMonotone |
| WorldGen.ClassifyBands | worldgen/worldgen.go:29-39 | '~' below -0.4, '$' in [-0.4, -0.3), ',' in [-0.3, 0.3), '.' from 0.3, each an if-and-only-if |
| WorldGen.ClassifyMonotone | worldgen/worldgen.go:29-39 | a higher noise value never gives a lower band |
| WorldGen.OpenBeforeExact | worldgen/worldgen.go:22-39 | the cells appended before (x, y) are exactly the open cells scanned before it, in scan order |
| WorldGen.OpenTilesExact | worldgen/worldgen.go:18-41 | openTiles lists exactly the interior ',' and '.' cells, each once, y outer and x inner |
| WorldGen.SquareIndexing | worldgen/worldgen.go:14-17 | genMap[x][y] stays inside ySize rows of xSize tiles for every scanned cell iff the map is square or empty |
| WorldGen.Features | worldgen/worldgen.go:44-57 | 200 '^', then 5 'R', then 5 'S', then one '@' |
| WorldGen.Place | worldgen/worldgen.go:88-93 | one placeTile keeps the board's shape and the list's length, and brings no new position into the list |
| WorldGen.PlaceAllCells | worldgen/worldgen.go:44-57 | after the placements each cell keeps its tile or holds a placed tile, and a cell not in the open list keeps its tile |
| WorldGen.FinalKeepsClosedCells | worldgen/worldgen.go:25-57 | border cells stay '#', and every cell that was not ',' or '.' keeps its scanned tile |
| WorldGen.SpawnUnique | worldgen/worldgen.go:44-57 | exactly one cell holds '@', and it is an interior cell that was ',' or '.' |
| WorldGen.RepeatedPlacement | worldgen/worldgen.go:88-98 | because remove's result is dropped, a later feature can overwrite an earlier one while an open cell stays free |
| WorldGen.RemoveDuplicates | worldgen/worldgen.go:95-98 | remove leaves the caller's list the same length with nothing new, and slot i copies the last entry |
| WorldGen.LineStartFormula | worldgen/worldgen.go:72-83 | line r of the text starts r·(xSize + 1) characters in: each earlier line is xSize tiles and a newline |
| WorldGen.RenderLayout | worldgen/worldgen.go:72-83 | the text is ySize lines of xSize characters plus '\n', and column x of line y is genMap[x][y] |
| WorldGen.GeneratedText | worldgen/worldgen.go:13-85 | in the generated text each line ends with '\n'; border cells show '#'; cells that cannot take a feature show the scanned tile; '@' appears exactly at the spawn |
| WorldGen.ScanNoise | worldgen/worldgen.go:22-41 | after the scan genMap holds the bordered, classified map and openTiles the open cells in scan order |
| WorldGen.PlaceFeatures | worldgen/worldgen.go:44-57 | the placement loops leave genMap and openTiles as the 211 placements define them |
| WorldGen.PlaceTile | worldgen/worldgen.go:88-93 | the tile goes to openTiles[index], no other cell changes, and that slot then holds the last entry |
| WorldGen.Remove | worldgen/worldgen.go:95-98 | slot i gets the last entry, and the result is the list without its last slot |
| WorldGen.Write | worldgen/worldgen.go:72-83 | the output loop produces the row-by-row text of genMap |
| WorldGen.GenerateNewLevel | worldgen/worldgen.go:13-93 | on a square map it fails exactly when the scan finds no open tile (the first placeTile calls rand.Intn(0), which panics); otherwise, with valid random indices, the text written is the rendering of the final layout |
| Floats.TruncTowardZero | game/monsters.go:45 | int(t) and math.Trunc give the integer next to t on the side of zero |
| Floats.Min | game/monsters.go:45 | math.Min is one of its arguments and at most both |
| Perlin.Shuffled | worldgen/perlin.go:67-72 | p[0..B] after t steps of the countdown shuffle; stated by Perlin.ShuffledMultiset, Perlin.ShuffledRange and Perlin.ShuffledLast |
| Perlin.ShuffledMultiset | worldgen/perlin.go:51-72 | the shuffle only exchanges entries: p[0..B] stays 0 .. B-1 plus one extra 0 |
| Perlin.ShuffledRange | worldgen/perlin.go:51-72 | every entry of p[0..B] lies in [0, B) during the shuffle |
| Perlin.ShuffledLast | worldgen/perlin.go:67-72 | p[B] ends as the first shuffle draw mod B, since no later step reaches index B |
| Perlin.Table | worldgen/perlin.go:51-83 | the finished table p; stated by Perlin.TableDraws, Perlin.TableRange, Perlin.TableRepeats, Perlin.TableMultiset and Perlin.TableMissing |
| Perlin.TableDraws | worldgen/perlin.go:51-72 | the table depends only on draws 6B .. 7B-1: each i < B uses six draws before the shuffle |
| Perlin.TableRange | worldgen/perlin.go:67-83 | all 2B + 2 entries of p lie in [0, B) |
| Perlin.TableRepeats | worldgen/perlin.go:74-76 | p[B + i] == p[i] for every i < B + 2 |
| Perlin.TableMultiset | worldgen/perlin.go:51-76 | p[0..B-1] plus the first shuffle draw mod B is 0 .. B-1 plus a second 0 |
| Perlin.TableMissing | worldgen/perlin.go:67-76 | when the first shuffle draw is not a multiple of B, its value is missing from p[0..B-1] |
| Perlin.Noise.constructor | worldgen/perlin.go:41-86 | the table is Table(draws), g1[k] is the gradient of draw 6·(k mod B), and alpha, beta and n are stored |
| Perlin.Draw | worldgen/perlin.go:51-65 | the first loop sets p[i] = i and g1[i] from draw 6i, consuming exactly six draws per i |
| Perlin.Shuffle | worldgen/perlin.go:67-72 | the countdown from B to 1 leaves p[0..B] as the specified shuffle and nothing above it touched |
| Perlin.ShuffleStep | worldgen/perlin.go:68-71 | one step exchanges p[i] and p[draw mod B] |
| Perlin.Duplicate | worldgen/perlin.go:74-83 | the copy loop makes p the full table and g1[k] the gradient of k mod B |
| Perlin.Lattice | worldgen/perlin.go:115-125 | bx0 and bx1 lie in [0, BM] and bx1 is bx0 + 1 modulo B |
| Perlin.LatticePeriodic | worldgen/perlin.go:115-117 | for non-negative t, the lattice cell repeats every B units |
| Perlin.Noise.Lookups | worldgen/perlin.go:127-138 | every lookup into p is in range, and b00, b10, b01, b11 all lie in [0, B), so the g2 lookups are in range as well |
| Perlin.LookupsPeriodic | worldgen/perlin.go:115-133 | the four corners repeat every B units along each axis |
| Monsters.StepCost | game/monsters.go:45 | for a non-empty path and non-negative points the index is in range, within the points, and either the last index or the whole part of the points; for an empty path it is negative |
| Monsters.StepCostAffordable | game/monsters.go:45-47 | paying the cost leaves the action points non-negative, and less than one point is left unless the end of the path capped the cost |
| Monsters.StepCostInRange | game/monsters.go:45-46 | path[cost] is in range iff the path is non-empty and the points exceed -1 |
| Monsters.Monster.Rat | game/monsters.go:15-27 | 'R', "Rat", 50 hitpoints, strength 5, speed 2, no action points |
| Monsters.Monster.Spider | game/monsters.go:29-40 | 'S', "Spider", 100 hitpoints, strength 10, speed 1, no action points |
| Monsters.Level.OneKeyEach | game/monsters.go:53-56 | in a valid level a monster is bound only to the key of its own position |
| Monsters.Monster.Move | game/monsters.go:50-72 | onto a free cell the old key is removed and `to` maps to the monster, which moves there; otherwise it stays, and next to the player it takes the blow, is removed if its hitpoints drop to 0 or below, and ends the game if the player's do; the level stays valid |
| Monsters.Monster.Update | game/monsters.go:42-48 | it panics iff the path index is out of range (always for an empty path), moves to that index, and leaves the action points at old + speed - cost, never negative |

## Left out

- The SDL interface (ui/ui.go, ui2d/ui2d.go), main.go, `game.Run` and `GameUI` are not part of this model. They are windowing, input polling and a channel-based loop.
- File I/O is not modelled: no `os.Open`, `bufio.Scanner`, `os.Remove`, `os.Create` or `bufio.Writer`. The parser takes the scanned lines, and the generator returns the text it would write.
- `range line` in the parser steps over runes, not bytes. A string is a `seq<char>`, so a multi-byte character counts as one column here.
- The animation side effects of `bfs` and `astar` (`ui.Draw`, `time.Sleep`, `fmt.Println`) are dropped.
- Float arithmetic of worldgen/perlin.go is not modelled: the g2 and g3 values, `normalize2`, `normalize3`, `at2`, `sCurve`, `lerp`, the interpolated result of `noise2` and the octave loop of `Noise2D`. Their draws are consumed in the right order, but the values are not stored. The generator takes each cell's noise sample, `Noise2D(x/10, y/10)`, as an opaque real.
- WorldGen.Classify: the thresholds are the exact reals -0.4, -0.3 and 0.3, not the float64 literals Go compares against, so a sample equal to float64(-0.4) or float64(0.3) falls in the neighbouring band here; a NaN sample, which matches no branch in Go and leaves the cell 0 and not open, cannot occur since samples are reals.
- Perlin.Lattice: `t := vec[0] + N` is exact real addition here, while Go rounds the float64 sum before `int(t) & BM`; for some v just below an integer (v = 1 - 2^-53) Go's bx0 is one more than the model's.
- Perlin.LatticePeriodic: the periodicity is stated for exact real arithmetic, not for float64 `vec[0] + N`; round-half-to-even makes Go's lattice cell differ between v and v + 256 for some v (such as 1 - 2^-41 - 2^-50).
- Perlin.LookupsPeriodic: inherits the exact-real lattice index of Perlin.LatticePeriodic, so it too does not hold for every float64 input of `noise2`.
- Randomness is not modelled. `rand.Intn` and `r.Int()` become input sequences (`picks`, `draws`). `NewPerlin`'s seeding is out of scope.
- `Attack`, `IsNextToPlayer`, the `Character` type and `level.astar`'s path are defined outside game/monsters.go and are not modelled. They become the inputs `blow`, `nextToPlayer` and `path`.
- `sdl.Quit`/`os.Exit` on player death become the result `exit` (`Exited` in `Update`).
- game/monsters.go belongs to a later revision, in which the level has a `Monsters` map. `Monsters.Level` holds just that map, the player position and the player's hitpoints.
- There is no lemma that parses a generated level. The parser rejects the generator's symbols `,` `~` `$` `^` `R` `S` `@`.
- Search.Astar: does not claim the marked chain is a shortest path, only that it is a walk from start to goal without repeats. The source's heuristic plus re-relaxation is not proved optimal.
- Search.Astar: the frontier is kept in insertion order rather than re-sorted in place. The popped entry is the same one, as Search.PopIndex states.
- Search.Bfs: "each position is enqueued once" is stated through the ghost count `enqueued`, not as a returned value.
- Search.Bfs, Search.Astar: require `Confined`, a rectangular map on which every cell reachable from start has its four neighbours inside. For bfs this is exactly the condition under which no getNeighbors call indexes outside the map. Astar stops at the goal, so it also gets through some maps that are not confined; those runs are not covered. The panic on other maps is not modelled.
- Grid.Neighbors: requires an interior position, the condition under which its four canWalk lookups stay inside a rectangular map.
- Game.Level.HandleInput: requires `Valid()`, a sealed map (no walkable cell and no closed door on the edge) with the player on a walkable cell. This is a sufficient invariant that every input keeps. It also excludes levels that the source plays without an out-of-range index, such as one with a walkable edge cell the player can never reach. Those levels are not covered.
- Game.Level: Debug is a set of positions rather than a `map[Pos]bool`.
- WorldGen.GenerateNewLevel: the panic of `rand.Intn(0)` on an empty open list is the result `ok == false`, with no text. It requires `xSize == ySize`, the only case in which `genMap[x][y]` stays within its bounds (WorldGen.SquareIndexing). The four placement loops are written as one loop over `Features()`. Sizes are `nat`, so negative sizes are not modelled.
- Floats.Trunc: `int(float)` of a value outside the 64-bit range is implementation-defined in Go and not modelled; integers are unbounded here.
