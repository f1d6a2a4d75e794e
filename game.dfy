/** The level of game/game.go as a mutable object: its map, its player and
    the Debug marks, with checkDoor and handleInput. */
module Game {
  import opened Grid
  import P = Parse
  import A = Search

  /** InputType of game/game.go. */
  datatype Input = None | Up | Down | Left | Right | Quit | Search

  predicate IsMove(i: Input)
  {
    i.Up? || i.Down? || i.Left? || i.Right?
  }

  /** The cell a directional input aims at; Up decreases y. */
  function Target(p: Pos, i: Input): (t: Pos)
    requires IsMove(i)
    ensures Adjacent(p, t)
    ensures i.Up? ==> t.y < p.y
    ensures i.Down? ==> t.y > p.y
    ensures i.Left? ==> t.x < p.x
    ensures i.Right? ==> t.x > p.x
  {
    match i
    case Up => Grid.Up(p)
    case Down => Grid.Down(p)
    case Left => Grid.Left(p)
    case Right => Grid.Right(p)
  }

  /** The goal handleInput gives astar: two columns right of and one row
      below the player. */
  function SearchGoal(p: Pos): Pos
  {
    Pos(p.x + 2, p.y + 1)
  }

  /** The map after checkDoor at p. */
  function OpenDoorAt(g: Map, p: Pos): Map
    requires InBounds(g, p)
  {
    if At(g, p) == ClosedDoor then g[p.y := g[p.y][p.x := OpenDoor]] else g
  }

  /** checkDoor turns a closed door into an open one and touches no other
      cell: the shape is kept, the cell at p is an open door exactly when it
      was a door, and every other cell is unchanged. */
  lemma OpenDoorCells(g: Map, p: Pos)
    requires InBounds(g, p)
    ensures var r := OpenDoorAt(g, p);
      |r| == |g| && (forall y :: 0 <= y < |g| ==> |r[y]| == |g[y]|) &&
      (At(g, p) == ClosedDoor || At(g, p) == OpenDoor <==> At(r, p) == OpenDoor) &&
      (At(g, p) != ClosedDoor ==> At(r, p) == At(g, p)) &&
      forall q :: InBounds(g, q) && q != p ==> At(r, q) == At(g, q)
  {
  }

  /** Opening a door makes exactly that cell walkable. */
  lemma OpenDoorWalkable(g: Map, p: Pos, q: Pos)
    requires InBounds(g, p) && InBounds(g, q)
    ensures InBounds(OpenDoorAt(g, p), q)
    ensures CanWalk(OpenDoorAt(g, p), q) <==> CanWalk(g, q) || (q == p && At(g, p) == ClosedDoor)
  {
  }

  lemma OpenDoorIdempotent(g: Map, p: Pos)
    requires InBounds(g, p)
    ensures InBounds(OpenDoorAt(g, p), p)
    ensures OpenDoorAt(OpenDoorAt(g, p), p) == OpenDoorAt(g, p)
  {
  }

  /** No door on the edge, so opening one cannot put a walkable cell there. */
  lemma OpenDoorSealed(g: Map, p: Pos)
    requires Sealed(g) && InBounds(g, p)
    ensures Sealed(OpenDoorAt(g, p))
  {
    var r := OpenDoorAt(g, p);
    forall q | InBounds(r, q) && (CanWalk(r, q) || At(r, q) == ClosedDoor) ensures Interior(r, q) {
      assert InBounds(g, q);
      assert CanWalk(g, q) || At(g, q) == ClosedDoor;
    }
  }

  class Level {
    var tiles: Map
    var player: Pos
    var debug: set<Pos>

    /** The level loadLevelFromFile returns; Debug starts empty. A sealed
        parsed map whose player stands on a walkable cell (as
        Parse.ParsedPlayerWalkable gives for a text with a spawn marker)
        yields a valid level. */
    constructor (p: P.Parsed)
      ensures tiles == p.tiles && player == p.player && debug == {}
      ensures Sealed(p.tiles) && InBounds(p.tiles, p.player) && CanWalk(p.tiles, p.player) ==> Valid()
    {
      tiles := p.tiles;
      player := p.player;
      debug := {};
    }

    /** A map closed off by walls on which the player stands on a
        walkable cell: every index the game loop uses is in range. */
    ghost predicate Valid()
      reads this
    {
      Sealed(tiles) && InBounds(tiles, player) && CanWalk(tiles, player)
    }

    /** checkDoor: open a closed door at pos. */
    method CheckDoor(pos: Pos)
      requires InBounds(tiles, pos)
      modifies this
      ensures tiles == OpenDoorAt(old(tiles), pos)
      ensures player == old(player) && debug == old(debug)
    {
      if tiles[pos.y][pos.x] == ClosedDoor {
        tiles := tiles[pos.y := tiles[pos.y][pos.x := OpenDoor]];
      }
    }

    /** handleInput: a move goes one step when the target can be walked on
        and otherwise tries the door there; Search runs astar toward
        SearchGoal and leaves the chain it walks back in debug. */
    method HandleInput(input: Input)
      requires Valid()
      modifies this
      ensures Valid()
      ensures IsMove(input) ==> debug == old(debug)
      ensures IsMove(input) && CanWalk(old(tiles), Target(old(player), input)) ==>
                player == Target(old(player), input) && tiles == old(tiles)
      ensures IsMove(input) && !CanWalk(old(tiles), Target(old(player), input)) ==>
                player == old(player) && tiles == OpenDoorAt(old(tiles), Target(old(player), input))
      ensures input.Search? ==> tiles == old(tiles) && player == old(player)
      ensures input.Search? ==> (debug == {} <==> !Reachable(tiles, player, SearchGoal(player)))
      ensures input.Search? && debug != {} ==>
                exists t :: A.BackWalk(tiles, t, SearchGoal(player), player) && debug == set q | q in t
      ensures input.Search? ==>
                exists trace, trail :: A.Searched(tiles, player, SearchGoal(player), trace, trail) &&
                  debug == set q | q in trail
      ensures input.None? || input.Quit? ==> tiles == old(tiles) && player == old(player) && debug == old(debug)
    {
      var p := player;
      assert Interior(tiles, p);
      match input {
        case Up => Move(Target(p, input));
        case Down => Move(Target(p, input));
        case Left => Move(Target(p, input));
        case Right => Move(Target(p, input));
        case Search =>
          var goal := SearchGoal(p);
          FencedConfined(tiles, p);
          var trail, trace := A.Astar(tiles, p, goal);
          debug := set q | q in trail;
          if trail != [] {
            assert trail[0] in debug;
          }
        case None =>
        case Quit =>
      }
    }

    /** One directional step of handleInput toward the adjacent cell t. */
    method Move(t: Pos)
      requires Valid() && Adjacent(player, t) && Interior(tiles, player)
      modifies this
      ensures Valid() && debug == old(debug)
      ensures CanWalk(old(tiles), t) ==> player == t && tiles == old(tiles)
      ensures !CanWalk(old(tiles), t) ==> player == old(player) && tiles == OpenDoorAt(old(tiles), t)
    {
      AdjacentCases(player, t);
      if CanWalk(tiles, t) {
        player := t;
      } else {
        OpenDoorSealed(tiles, t);
        OpenDoorWalkable(tiles, t, player);
        CheckDoor(t);
      }
    }
  }
}
