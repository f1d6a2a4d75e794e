/** The level grid of game/game.go: tiles, positions, the walkability rule
    (canWalk), the 4-neighbour enumeration (getNeighbors) and the notion of
    reachability that the searches are proved against. */
module Grid {

  /** A map tile. The source stores a rune; the parser only ever produces
      these six values ('#', '.', '|', '/', 0 and -1). */
  datatype Tile = StoneWall | DirtFloor | ClosedDoor | OpenDoor | Blank | Pending

  datatype Pos = Pos(x: int, y: int)

  /** level.Map: a sequence of rows, indexed Map[y][x]. */
  type Map = seq<seq<Tile>>

  function Width(g: Map): nat
  {
    if |g| == 0 then 0 else |g[0]|
  }

  predicate Rectangular(g: Map)
  {
    forall y :: 0 <= y < |g| ==> |g[y]| == Width(g)
  }

  predicate InBounds(g: Map, p: Pos)
  {
    0 <= p.y < |g| && 0 <= p.x < |g[p.y]|
  }

  /** All four neighbours of p lie inside the (rectangular) map. */
  predicate Interior(g: Map, p: Pos)
  {
    Rectangular(g) && 1 <= p.y && p.y + 1 < |g| && 1 <= p.x && p.x + 1 < Width(g)
  }

  function At(g: Map, p: Pos): Tile
    requires InBounds(g, p)
  {
    g[p.y][p.x]
  }

  function Abs(v: int): nat
  {
    if v < 0 then -v else v
  }

  function Manhattan(a: Pos, b: Pos): nat
  {
    Abs(a.x - b.x) + Abs(a.y - b.y)
  }

  predicate Adjacent(a: Pos, b: Pos)
  {
    Manhattan(a, b) == 1
  }

  /** canWalk: walls, closed doors and blank void block; every other tile,
      the unresolved spawn marker included, can be walked on. */
  predicate Walkable(t: Tile)
  {
    match t
    case StoneWall => false
    case ClosedDoor => false
    case Blank => false
    case _ => true
  }

  predicate CanWalk(g: Map, p: Pos)
    requires InBounds(g, p)
  {
    Walkable(At(g, p))
  }

  lemma WalkableTiles(t: Tile)
    ensures Walkable(t) <==> t == DirtFloor || t == OpenDoor || t == Pending
  {
  }

  function Right(p: Pos): Pos { Pos(p.x + 1, p.y) }
  function Left(p: Pos): Pos { Pos(p.x - 1, p.y) }
  function Up(p: Pos): Pos { Pos(p.x, p.y - 1) }
  function Down(p: Pos): Pos { Pos(p.x, p.y + 1) }

  /** Position of q in getNeighbors' enumeration order: right, left, up, down. */
  function Rank(p: Pos, q: Pos): nat
  {
    if q == Right(p) then 0
    else if q == Left(p) then 1
    else if q == Up(p) then 2
    else 3
  }

  /** One move of the searches: to an orthogonally adjacent walkable cell. */
  predicate Step(g: Map, a: Pos, b: Pos)
  {
    Adjacent(a, b) && InBounds(g, b) && CanWalk(g, b)
  }

  lemma AdjacentCases(p: Pos, q: Pos)
    ensures Adjacent(p, q) <==> q == Right(p) || q == Left(p) || q == Up(p) || q == Down(p)
  {
  }

  /** getNeighbors: the walkable cells among right, left, up and down, in that order. */
  function Neighbors(g: Map, p: Pos): (r: seq<Pos>)
    requires Interior(g, p)
    ensures |r| <= 4
    ensures forall q :: q in r <==> Step(g, p, q)
    ensures forall i, j :: 0 <= i < j < |r| ==> Rank(p, r[i]) < Rank(p, r[j])
  {
    var right := if CanWalk(g, Right(p)) then [Right(p)] else [];
    var left := if CanWalk(g, Left(p)) then [Left(p)] else [];
    var up := if CanWalk(g, Up(p)) then [Up(p)] else [];
    var down := if CanWalk(g, Down(p)) then [Down(p)] else [];
    forall q ensures q in right + left + up + down <==> Step(g, p, q) {
      AdjacentCases(p, q);
    }
    right + left + up + down
  }

  /** Every walkable cell has its four neighbours inside the map, so a
      search over Neighbors never indexes outside it. */
  ghost predicate Fenced(g: Map)
  {
    Rectangular(g) && forall p :: InBounds(g, p) && CanWalk(g, p) ==> Interior(g, p)
  }

  /** Fenced, and opening a door cannot break that: no closed door on the edge. */
  ghost predicate Sealed(g: Map)
  {
    Rectangular(g) && forall p :: InBounds(g, p) && (CanWalk(g, p) || At(g, p) == ClosedDoor) ==> Interior(g, p)
  }

  /** The set of all in-bounds positions. */
  ghost function Cells(g: Map): (c: set<Pos>)
    ensures forall p :: p in c <==> InBounds(g, p)
  {
    var c := set y, x | 0 <= y < |g| && 0 <= x < |g[y]| :: Pos(x, y);
    assert forall p :: InBounds(g, p) ==> Pos(p.x, p.y) in c;
    c
  }

  /** s is a walk from a to b made of Steps. */
  ghost predicate IsWalk(g: Map, s: seq<Pos>, a: Pos, b: Pos)
  {
    |s| >= 1 && s[0] == a && s[|s| - 1] == b &&
    forall i :: 0 <= i < |s| - 1 ==> Step(g, s[i], s[i + 1])
  }

  ghost predicate Reachable(g: Map, a: Pos, b: Pos)
  {
    exists s :: IsWalk(g, s, a, b)
  }

  /** S is closed under Step. */
  ghost predicate Closed(g: Map, S: set<Pos>)
  {
    forall p, q :: p in S && Step(g, p, q) ==> q in S
  }

  lemma ReachableRefl(g: Map, a: Pos)
    ensures Reachable(g, a, a)
  {
    assert IsWalk(g, [a], a, a);
  }

  lemma {:induction false} ReachableStep(g: Map, a: Pos, b: Pos, c: Pos)
    requires Reachable(g, a, b) && Step(g, b, c)
    ensures Reachable(g, a, c)
  {
    var s :| IsWalk(g, s, a, b);
    assert IsWalk(g, s + [c], a, c);
  }

  lemma {:induction false} WalkStaysInside(g: Map, S: set<Pos>, s: seq<Pos>, a: Pos, b: Pos)
    requires IsWalk(g, s, a, b) && a in S && Closed(g, S)
    ensures b in S
    decreases |s|
  {
    if |s| > 1 {
      var t := s[..|s| - 1];
      assert IsWalk(g, t, a, t[|t| - 1]);
      WalkStaysInside(g, S, t, a, t[|t| - 1]);
      assert Step(g, s[|s| - 2], s[|s| - 1]);
    }
  }

  /** A Step-closed set that holds a holds everything reachable from a. */
  lemma ClosedHoldsReachable(g: Map, S: set<Pos>, a: Pos, b: Pos)
    requires a in S && Closed(g, S) && Reachable(g, a, b)
    ensures b in S
  {
    var s :| IsWalk(g, s, a, b);
    WalkStaysInside(g, S, s, a, b);
  }

  /** Every position reachable from start has its four neighbours inside
      the (rectangular) map: what a search from start needs so that
      getNeighbors never indexes outside it. */
  ghost predicate Confined(g: Map, start: Pos)
  {
    Rectangular(g) && forall p :: Reachable(g, start, p) ==> Interior(g, p)
  }

  /** On a fenced map, a search from a walkable cell stays confined. */
  lemma FencedConfined(g: Map, start: Pos)
    requires Fenced(g) && InBounds(g, start) && CanWalk(g, start)
    ensures Confined(g, start)
  {
    forall p | Reachable(g, start, p) ensures Interior(g, p) {
      var s :| IsWalk(g, s, start, p);
      if |s| > 1 {
        assert Step(g, s[|s| - 2], s[|s| - 1]);
      }
    }
  }

  lemma SubsetCard<T>(a: set<T>, b: set<T>)
    requires a <= b
    ensures |a| <= |b|
  {
    if a != {} {
      var x :| x in a;
      SubsetCard(a - {x}, b - {x});
    }
  }
}
