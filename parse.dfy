/** The map parser of game/game.go (loadLevelFromFile without the file
    reading): lines of text become a rectangular tile grid and a player
    position, and every spawn marker is then resolved in place. */
module Parse {
  import opened Grid

  datatype Option<T> = None | Some(value: T)

  /** The two ways the source's parser panics. */
  datatype ParseError = InvalidCharacter | SpawnOnEdge

  datatype Result<T> = Ok(value: T) | Err(error: ParseError)

  /** What the parser leaves in the new level: its map and its player. */
  datatype Parsed = Parsed(tiles: Map, player: Pos)

  /** The length of the longest line (0 for no lines). */
  function Longest(lines: seq<string>): (n: nat)
    ensures forall i :: 0 <= i < |lines| ==> |lines[i]| <= n
    ensures n == 0 || exists i :: 0 <= i < |lines| && |lines[i]| == n
  {
    if |lines| == 0 then 0
    else
      var m := Longest(lines[..|lines| - 1]);
      if |lines[|lines| - 1]| > m then |lines[|lines| - 1]| else m
  }

  /** The switch of the decoding loop; None is the "Invalid Character" panic. */
  function Decode(c: char): Option<Tile>
  {
    match c
    case ' ' => Some(Blank)
    case '\t' => Some(Blank)
    case '\n' => Some(Blank)
    case '\r' => Some(Blank)
    case '#' => Some(StoneWall)
    case '|' => Some(ClosedDoor)
    case '/' => Some(OpenDoor)
    case '.' => Some(DirtFloor)
    case 'P' => Some(Pending)
    case _ => None
  }

  lemma DecodeTable(c: char)
    ensures Decode(c) == Some(Blank) <==> c == ' ' || c == '\t' || c == '\n' || c == '\r'
    ensures Decode(c) == Some(StoneWall) <==> c == '#'
    ensures Decode(c) == Some(ClosedDoor) <==> c == '|'
    ensures Decode(c) == Some(OpenDoor) <==> c == '/'
    ensures Decode(c) == Some(DirtFloor) <==> c == '.'
    ensures Decode(c) == Some(Pending) <==> c == 'P'
    ensures Decode(c) == None <==> c !in " \t\n\r#|/.P"
  {
  }

  /** Every character of every line is one the parser knows. */
  predicate ValidChars(lines: seq<string>)
  {
    forall y, x :: 0 <= y < |lines| && 0 <= x < |lines[y]| ==> Decode(lines[y][x]).Some?
  }

  /** The tile the decoding loop stores at column x of row y: the decoded
      character, or Blank past the end of the line. */
  function Cell(lines: seq<string>, y: nat, x: nat): Tile
    requires y < |lines|
  {
    if x < |lines[y]| then
      match Decode(lines[y][x])
      case Some(t) => t
      case None => Blank
    else Blank
  }

  /** The grid after the decoding loop: one row per line, every row as long
      as the longest line. */
  function Decoded(lines: seq<string>): Map
  {
    seq(|lines|, y requires 0 <= y < |lines| => seq(Longest(lines), x requires 0 <= x < Longest(lines) => Cell(lines, y, x)))
  }

  /** Index of the last 'P' in s, or -1. */
  function LastP(s: string): (i: int)
    ensures -1 <= i < |s|
    ensures i >= 0 ==> s[i] == 'P'
    ensures forall j :: i < j < |s| ==> s[j] != 'P'
  {
    if |s| == 0 then -1
    else if s[|s| - 1] == 'P' then |s| - 1
    else LastP(s[..|s| - 1])
  }

  /** The player position the decoding loop leaves: the last 'P' in
      row-major scan order, or the zero position when there is none. */
  function PlayerOf(lines: seq<string>): Pos
  {
    if |lines| == 0 then Pos(0, 0)
    else if LastP(lines[|lines| - 1]) >= 0 then Pos(LastP(lines[|lines| - 1]), |lines| - 1)
    else PlayerOf(lines[..|lines| - 1])
  }

  predicate HasP(lines: seq<string>)
  {
    exists y, x :: 0 <= y < |lines| && 0 <= x < |lines[y]| && lines[y][x] == 'P'
  }

  /** (y, x) comes strictly before (y', x') in row-major order. */
  predicate Before(y: int, x: int, y': int, x': int)
  {
    y < y' || (y == y' && x < x')
  }

  /** PlayerOf is the last spawn marker of the text, or (0, 0) without one. */
  lemma {:induction false} PlayerIsLastP(lines: seq<string>)
    ensures var p := PlayerOf(lines);
      HasP(lines) ==>
        0 <= p.y < |lines| && 0 <= p.x < |lines[p.y]| && lines[p.y][p.x] == 'P' &&
        forall y, x :: 0 <= y < |lines| && 0 <= x < |lines[y]| && Before(p.y, p.x, y, x) ==> lines[y][x] != 'P'
    ensures !HasP(lines) ==> PlayerOf(lines) == Pos(0, 0)
    decreases |lines|
  {
    if |lines| > 0 {
      var last := lines[|lines| - 1];
      var init := lines[..|lines| - 1];
      PlayerIsLastP(init);
      if LastP(last) < 0 {
        assert forall x :: 0 <= x < |last| ==> last[x] != 'P';
        assert HasP(lines) ==> HasP(init) by {
          if HasP(lines) {
            var y, x :| 0 <= y < |lines| && 0 <= x < |lines[y]| && lines[y][x] == 'P';
            assert init[y] == lines[y];
          }
        }
        assert HasP(init) ==> HasP(lines) by {
          if HasP(init) {
            var y, x :| 0 <= y < |init| && 0 <= x < |init[y]| && init[y][x] == 'P';
            assert lines[y] == init[y];
          }
        }
      } else {
        assert lines[|lines| - 1][LastP(last)] == 'P';
      }
    }
  }

  /** Some spawn marker lies in row 0 or column 0. */
  predicate EdgeSpawn(lines: seq<string>)
  {
    exists y, x :: 0 <= y < |lines| && 0 <= x < |lines[y]| && lines[y][x] == 'P' && (x == 0 || y == 0)
  }

  /** The resolution pass, cell by cell: a Pending cell becomes DirtFloor
      when one of the cells at (x-1, y-1), (x-1, y) and (x, y-1) is DirtFloor
      by the time the scan reaches it (the fourth cell it looks at, (x, y)
      itself, is the Pending cell); every other cell is left as decoded. */
  function Resolved(d: Map, x: nat, y: nat): Tile
    requires Rectangular(d) && y < |d| && x < Width(d)
    decreases x + y
  {
    if d[y][x] != Pending || x == 0 || y == 0 then d[y][x]
    else if Resolved(d, x - 1, y - 1) == DirtFloor || Resolved(d, x - 1, y) == DirtFloor ||
            Resolved(d, x, y - 1) == DirtFloor then DirtFloor
    else Pending
  }

  function ResolvedMap(d: Map): Map
    requires Rectangular(d)
  {
    seq(|d|, y requires 0 <= y < |d| => seq(Width(d), x requires 0 <= x < Width(d) => Resolved(d, x, y)))
  }

  /** The parser's result, as a function of the text. */
  function ParseSpec(lines: seq<string>): Result<Parsed>
  {
    if !ValidChars(lines) then Err(InvalidCharacter)
    else if EdgeSpawn(lines) then Err(SpawnOnEdge)
    else
      DecodedShape(lines);
      Ok(Parsed(ResolvedMap(Decoded(lines)), PlayerOf(lines)))
  }

  lemma DecodedShape(lines: seq<string>)
    ensures var d := Decoded(lines);
      Rectangular(d) && |d| == |lines| && forall y :: 0 <= y < |d| ==> |d[y]| == Longest(lines)
  {
  }

  /** In a decoded grid the Pending cells are exactly the 'P' characters. */
  lemma EdgeSpawnDecoded(lines: seq<string>)
    ensures var d := Decoded(lines);
      Rectangular(d) &&
      (EdgeSpawn(lines) <==> exists i, j :: 0 <= i < |d| && 0 <= j < Width(d) && d[i][j] == Pending && (i == 0 || j == 0))
  {
    var d := Decoded(lines);
    DecodedShape(lines);
    if EdgeSpawn(lines) {
      var i, j :| 0 <= i < |lines| && 0 <= j < |lines[i]| && lines[i][j] == 'P' && (j == 0 || i == 0);
      assert d[i][j] == Pending;
    }
    if exists i, j :: 0 <= i < |d| && 0 <= j < Width(d) && d[i][j] == Pending && (i == 0 || j == 0) {
      var i, j :| 0 <= i < |d| && 0 <= j < Width(d) && d[i][j] == Pending && (i == 0 || j == 0);
      assert Cell(lines, i, j) == Pending;
      assert lines[i][j] == 'P';
    }
  }

  /** Only spawn markers change during resolution, and only into DirtFloor. */
  lemma ResolvedKeeps(d: Map, x: nat, y: nat)
    requires Rectangular(d) && y < |d| && x < Width(d)
    ensures d[y][x] != Pending ==> Resolved(d, x, y) == d[y][x]
    ensures d[y][x] == Pending ==> Resolved(d, x, y) == Pending || Resolved(d, x, y) == DirtFloor
  {
  }

  /** A spawn marker next to decoded floor in its look-back window becomes floor. */
  lemma ResolvedNearFloor(d: Map, x: nat, y: nat)
    requires Rectangular(d) && 1 <= y < |d| && 1 <= x < Width(d) && d[y][x] == Pending
    requires d[y - 1][x - 1] == DirtFloor || d[y][x - 1] == DirtFloor || d[y - 1][x] == DirtFloor
    ensures Resolved(d, x, y) == DirtFloor
  {
  }

  /** A well-formed text: the parsed map has one row per line, each as long as
      the longest line; cells past a line's end are Blank and every other
      character keeps its decoded tile. */
  lemma ParseShape(lines: seq<string>)
    requires ParseSpec(lines).Ok?
    ensures var r := ParseSpec(lines).value;
      Rectangular(r.tiles) && |r.tiles| == |lines| &&
      (forall y :: 0 <= y < |lines| ==> |r.tiles[y]| == Longest(lines)) &&
      (forall y, x :: 0 <= y < |lines| && |lines[y]| <= x < Longest(lines) ==> r.tiles[y][x] == Blank) &&
      (forall y, x :: 0 <= y < |lines| && 0 <= x < |lines[y]| && lines[y][x] != 'P' ==>
         Decode(lines[y][x]) == Some(r.tiles[y][x]))
  {
    var r := ParseSpec(lines).value;
    var d := Decoded(lines);
    DecodedShape(lines);
    forall y, x | 0 <= y < |lines| && 0 <= x < Longest(lines) && d[y][x] != Pending
      ensures r.tiles[y][x] == d[y][x]
    {
      ResolvedKeeps(d, x, y);
    }
  }

  /** With a spawn marker in the text, the parsed player stands on a
      walkable tile: the marker's cell stays Pending or becomes DirtFloor. */
  lemma ParsedPlayerWalkable(lines: seq<string>)
    requires ParseSpec(lines).Ok? && HasP(lines)
    ensures var r := ParseSpec(lines).value;
      InBounds(r.tiles, r.player) && CanWalk(r.tiles, r.player)
  {
    var r := ParseSpec(lines).value;
    var d := Decoded(lines);
    DecodedShape(lines);
    PlayerIsLastP(lines);
    var p := r.player;
    assert d[p.y][p.x] == Pending;
    ResolvedKeeps(d, p.x, p.y);
  }

  /** loadLevelFromFile, from the lines the scanner would produce. */
  method Parse(lines: seq<string>) returns (r: Result<Parsed>)
    ensures r == ParseSpec(lines)
  {
    var longest := LongestRow(lines);
    var m := Blanks(|lines|, longest);
    var ok, player;
    ok, m, player := DecodeAll(lines, m);
    if !ok {
      return Err(InvalidCharacter);
    }
    DecodedShape(lines);
    EdgeSpawnDecoded(lines);
    ok, m := ResolveAll(m);
    if !ok {
      return Err(SpawnOnEdge);
    }
    r := Ok(Parsed(m, player));
  }

  /** The first loop: the longest line. */
  method LongestRow(lines: seq<string>) returns (longest: nat)
    ensures longest == Longest(lines)
  {
    longest := 0;
    for i := 0 to |lines|
      invariant longest == Longest(lines[..i])
    {
      assert lines[..i + 1][..i] == lines[..i];
      if |lines[i]| > longest {
        longest := |lines[i]|;
      }
    }
    assert lines[..|lines|] == lines;
  }

  /** The allocation loop: rows Blank rows (Blank is the zero tile) of width cells. */
  method Blanks(rows: nat, width: nat) returns (m: Map)
    ensures |m| == rows && forall y :: 0 <= y < rows ==> m[y] == seq(width, _ => Blank)
  {
    m := [];
    for i := 0 to rows
      invariant |m| == i && forall y :: 0 <= y < i ==> m[y] == seq(width, _ => Blank)
    {
      m := m + [seq(width, _ => Blank)];
    }
  }

  /** m holds the decoded tiles of every cell before (y, x) and Blank elsewhere. */
  ghost predicate DecodedUpTo(lines: seq<string>, m: Map, y: int, x: int)
  {
    |m| == |lines| &&
    (forall i :: 0 <= i < |m| ==> |m[i]| == Longest(lines)) &&
    forall i, j :: 0 <= i < |m| && 0 <= j < Longest(lines) ==>
      m[i][j] == if Before(i, j, y, x) then Cell(lines, i, j) else Blank
  }

  /** Every character before (y, x) decodes. */
  ghost predicate ValidUpTo(lines: seq<string>, y: int, x: int)
  {
    forall i, j :: 0 <= i < |lines| && 0 <= j < |lines[i]| && Before(i, j, y, x) ==> Decode(lines[i][j]).Some?
  }

  /** The decoding loop. On success the grid is Decoded(lines) and the player
      the last marker; false is the panic on an unknown character. */
  method DecodeAll(lines: seq<string>, m0: Map) returns (ok: bool, m: Map, player: Pos)
    requires |m0| == |lines| && forall y :: 0 <= y < |m0| ==> m0[y] == seq(Longest(lines), _ => Blank)
    ensures ok <==> ValidChars(lines)
    ensures ok ==> m == Decoded(lines) && player == PlayerOf(lines)
  {
    m := m0;
    player := Pos(0, 0);
    var n := Longest(lines);
    for y := 0 to |lines|
      invariant DecodedUpTo(lines, m, y, 0) && ValidUpTo(lines, y, 0)
      invariant player == PlayerOf(lines[..y])
    {
      var line := lines[y];
      ghost var before := player;
      for x := 0 to |line|
        invariant DecodedUpTo(lines, m, y, x) && ValidUpTo(lines, y, x)
        invariant player == if LastP(line[..x]) >= 0 then Pos(LastP(line[..x]), y) else before
      {
        assert line[..x + 1][..x] == line[..x];
        var t := Decode(line[x]);
        if t.None? {
          ok := false;
          return;
        }
        if line[x] == 'P' {
          player := Pos(x, y);
        }
        StoreDecoded(lines, m, y, x);
        m := m[y := m[y][x := t.value]];
      }
      assert line[..|line|] == line;
      assert lines[..y + 1][..y] == lines[..y];
      NextRow(lines, m, y);
    }
    ok := true;
    assert lines[..|lines|] == lines;
    DecodedDone(lines, m);
  }

  lemma StoreDecoded(lines: seq<string>, m: Map, y: int, x: int)
    requires DecodedUpTo(lines, m, y, x) && ValidUpTo(lines, y, x)
    requires 0 <= y < |lines| && 0 <= x < |lines[y]| && Decode(lines[y][x]).Some?
    ensures x < |m[y]|
    ensures DecodedUpTo(lines, m[y := m[y][x := Decode(lines[y][x]).value]], y, x + 1)
    ensures ValidUpTo(lines, y, x + 1)
  {
  }

  lemma NextRow(lines: seq<string>, m: Map, y: int)
    requires 0 <= y < |lines|
    requires DecodedUpTo(lines, m, y, |lines[y]|) && ValidUpTo(lines, y, |lines[y]|)
    ensures DecodedUpTo(lines, m, y + 1, 0) && ValidUpTo(lines, y + 1, 0)
  {
  }

  lemma DecodedDone(lines: seq<string>, m: Map)
    requires DecodedUpTo(lines, m, |lines|, 0)
    ensures m == Decoded(lines)
  {
    var d := Decoded(lines);
    assert |m| == |d|;
    forall i | 0 <= i < |m| ensures m[i] == d[i] {
      assert |m[i]| == |d[i]|;
    }
  }

  /** m holds the resolved tiles of every cell before (y, x), the decoded
      tiles elsewhere, and no cell before (y, x) is a marker on the edge. */
  ghost predicate ResolvedUpTo(d: Map, m: Map, y: int, x: int)
    requires Rectangular(d)
  {
    |m| == |d| &&
    (forall i :: 0 <= i < |m| ==> |m[i]| == Width(d)) &&
    (forall i, j :: 0 <= i < |d| && 0 <= j < Width(d) ==>
       m[i][j] == if Before(i, j, y, x) then Resolved(d, j, i) else d[i][j]) &&
    forall i, j :: 0 <= i < |d| && 0 <= j < Width(d) && Before(i, j, y, x) ==>
      !(d[i][j] == Pending && (i == 0 || j == 0))
  }

  /** The resolution loop over the decoded grid d. false is the panic that
      indexing row or column -1 causes for a marker on the top or left edge. */
  method ResolveAll(d: Map) returns (ok: bool, m: Map)
    requires Rectangular(d)
    ensures ok <==> forall i, j :: 0 <= i < |d| && 0 <= j < Width(d) ==> !(d[i][j] == Pending && (i == 0 || j == 0))
    ensures ok ==> m == ResolvedMap(d)
  {
    m := d;
    for y := 0 to |d|
      invariant ResolvedUpTo(d, m, y, 0)
    {
      for x := 0 to |m[y]|
        invariant ResolvedUpTo(d, m, y, x) && |m[y]| == Width(d)
      {
        if m[y][x] == Pending {
          if x == 0 || y == 0 {
            ok := false;
            return;
          }
          m := Settle(d, m, x, y);
        } else {
          assert Resolved(d, x, y) == d[y][x];
        }
      }
    }
    ok := true;
    ResolvedDone(d, m);
  }

  /** The 2 by 2 search of one interior marker: columns x-1 and x, and in
      each rows y-1 and y, until a DirtFloor is seen. */
  method Settle(d: Map, m0: Map, x: nat, y: nat) returns (m: Map)
    requires Rectangular(d) && 1 <= y < |d| && 1 <= x < Width(d) && d[y][x] == Pending
    requires ResolvedUpTo(d, m0, y, x)
    ensures ResolvedUpTo(d, m, y, x + 1)
  {
    m := m0;
    ghost var found := false;
    label search:
    for sx := x - 1 to x + 1
      invariant m == m0 && !found
      invariant forall b, a :: y - 1 <= b <= y && x - 1 <= a < sx ==> m[b][a] != DirtFloor
    {
      for sy := y - 1 to y + 1
        invariant m == m0 && !found
        invariant forall b :: y - 1 <= b < sy ==> m[b][sx] != DirtFloor
      {
        if m[sy][sx] == DirtFloor {
          SettleFloor(d, m0, x, y, sx, sy);
          m := m[y := m[y][x := DirtFloor]];
          found := true;
          break search;
        }
      }
    }
    if !found {
      SettleNone(d, m0, x, y);
    }
  }

  lemma SettleFloor(d: Map, m: Map, x: nat, y: nat, sx: int, sy: int)
    requires Rectangular(d) && 1 <= y < |d| && 1 <= x < Width(d) && d[y][x] == Pending
    requires ResolvedUpTo(d, m, y, x)
    requires x - 1 <= sx <= x && y - 1 <= sy <= y && m[sy][sx] == DirtFloor
    ensures ResolvedUpTo(d, m[y := m[y][x := DirtFloor]], y, x + 1)
  {
    assert Resolved(d, x, y) == DirtFloor;
  }

  lemma SettleNone(d: Map, m: Map, x: nat, y: nat)
    requires Rectangular(d) && 1 <= y < |d| && 1 <= x < Width(d) && d[y][x] == Pending
    requires ResolvedUpTo(d, m, y, x)
    requires m[y - 1][x - 1] != DirtFloor && m[y][x - 1] != DirtFloor && m[y - 1][x] != DirtFloor
    ensures ResolvedUpTo(d, m, y, x + 1)
  {
    assert Resolved(d, x, y) == Pending;
  }

  lemma ResolvedDone(d: Map, m: Map)
    requires Rectangular(d) && ResolvedUpTo(d, m, |d|, 0)
    ensures m == ResolvedMap(d)
  {
    var r := ResolvedMap(d);
    forall i | 0 <= i < |m| ensures m[i] == r[i] {
      assert |m[i]| == |r[i]|;
    }
  }
}
