/** The level generator of worldgen/worldgen.go (GenerateNewLevel, placeTile
    and remove): a square of noise samples becomes a bordered map, the open
    cells are listed in scan order, features are dropped onto open cells
    chosen by index, and the map is written out row by row as text.

    The noise sample at a cell and every random index are parameters. */
module WorldGen {
  import G = Grid

  type Pos = G.Pos

  /** The interior tile for a noise value, by the generator's thresholds. */
  function Classify(v: real): char
  {
    if v < -0.4 then '~'
    else if v >= -0.4 && v < -0.3 then '$'
    else if v >= -0.3 && v < 0.3 then ','
    else '.'
  }

  /** The four thresholds split the reals into four bands, one tile each. */
  lemma ClassifyBands(v: real)
    ensures Classify(v) == '~' <==> v < -0.4
    ensures Classify(v) == '$' <==> -0.4 <= v < -0.3
    ensures Classify(v) == ',' <==> -0.3 <= v < 0.3
    ensures Classify(v) == '.' <==> 0.3 <= v
  {
  }

  /** Band of a tile, lowest noise first. */
  function Band(c: char): nat
  {
    if c == '~' then 0 else if c == '$' then 1 else if c == ',' then 2 else 3
  }

  /** A higher noise value never gives a lower band. */
  lemma ClassifyMonotone(v: real, w: real)
    requires v <= w
    ensures Band(Classify(v)) <= Band(Classify(w))
  {
  }

  /** The first or last row or column of an n by n map. */
  predicate OnBorder(n: nat, x: int, y: int)
  {
    x == 0 || x == n - 1 || y == 0 || y == n - 1
  }

  /** The tile the scan writes at (x, y). */
  function BaseTile(noise: (int, int) -> real, n: nat, x: int, y: int): char
  {
    if OnBorder(n, x, y) then '#' else Classify(noise(x, y))
  }

  /** (x, y) is a cell the scan appends to openTiles. */
  predicate IsOpen(noise: (int, int) -> real, n: nat, x: int, y: int)
  {
    !OnBorder(n, x, y) && (Classify(noise(x, y)) == ',' || Classify(noise(x, y)) == '.')
  }

  predicate InSquare(p: Pos, n: nat)
  {
    0 <= p.x < n && 0 <= p.y < n
  }

  /** p comes before q in the scan: y outer, x inner. */
  predicate ScanBefore(p: Pos, q: Pos)
  {
    p.y < q.y || (p.y == q.y && p.x < q.x)
  }

  /** The open cells the scan has appended before it reaches (x, y). */
  function OpenBefore(noise: (int, int) -> real, n: nat, y: nat, x: nat): seq<Pos>
    decreases y, x
  {
    if x == 0 then
      if y == 0 then [] else OpenBefore(noise, n, y - 1, n)
    else
      OpenBefore(noise, n, y, x - 1) + (if IsOpen(noise, n, x - 1, y) then [G.Pos(x - 1, y)] else [])
  }

  /** openTiles once the scan is over. */
  function OpenTiles(noise: (int, int) -> real, n: nat): seq<Pos>
  {
    OpenBefore(noise, n, n, 0)
  }

  /** The cells appended before (x, y) are exactly the open cells scanned
      before it, and they are listed in scan order. */
  lemma {:induction false} OpenBeforeExact(noise: (int, int) -> real, n: nat, y: nat, x: nat)
    requires x <= n
    ensures var s := OpenBefore(noise, n, y, x);
      forall p :: p in s <==> 0 <= p.x < n && 0 <= p.y && ScanBefore(p, G.Pos(x, y)) && IsOpen(noise, n, p.x, p.y)
    ensures var s := OpenBefore(noise, n, y, x);
      forall i, j :: 0 <= i < j < |s| ==> ScanBefore(s[i], s[j])
    decreases y, x
  {
    if x == 0 {
      if y > 0 {
        OpenBeforeExact(noise, n, y - 1, n);
      }
    } else {
      OpenBeforeExact(noise, n, y, x - 1);
      var s := OpenBefore(noise, n, y, x - 1);
      if IsOpen(noise, n, x - 1, y) {
        var t := s + [G.Pos(x - 1, y)];
        forall i, j | 0 <= i < j < |t| ensures ScanBefore(t[i], t[j]) {
          if j == |s| {
            assert t[i] in s;
          }
        }
      }
    }
  }

  /** After the scan, openTiles lists exactly the interior ',' and '.'
      cells, each once, in scan order. */
  lemma OpenTilesExact(noise: (int, int) -> real, n: nat)
    ensures var s := OpenTiles(noise, n);
      forall p :: p in s <==> InSquare(p, n) && IsOpen(noise, n, p.x, p.y)
    ensures var s := OpenTiles(noise, n);
      forall i, j :: 0 <= i < j < |s| ==> ScanBefore(s[i], s[j])
    ensures var s := OpenTiles(noise, n);
      forall p :: p in s ==> !OnBorder(n, p.x, p.y) && (BaseTile(noise, n, p.x, p.y) == ',' || BaseTile(noise, n, p.x, p.y) == '.')
  {
    OpenBeforeExact(noise, n, n, 0);
  }

  /** genMap[x][y] is inside genMap, which has ySize rows of xSize tiles. */
  predicate IndexInside(xSize: nat, ySize: nat, x: int, y: int)
  {
    0 <= x < ySize && 0 <= y < xSize
  }

  /** Indexing genMap[x][y] stays inside for every scanned cell exactly
      when the map is square (or has no cells). */
  lemma SquareIndexing(xSize: nat, ySize: nat)
    ensures (forall x, y :: 0 <= x < xSize && 0 <= y < ySize ==> IndexInside(xSize, ySize, x, y)) <==>
            xSize == ySize || xSize == 0 || ySize == 0
  {
    if xSize < ySize && xSize != 0 {
      assert !IndexInside(xSize, ySize, 0, xSize);
    } else if ySize < xSize && ySize != 0 {
      assert !IndexInside(xSize, ySize, ySize, 0);
    }
  }

  /** The tiles dropped by the placement loops, in order: 200 trees, 5 rats,
      5 spiders and the player. */
  function Features(): (f: seq<char>)
    ensures |f| == 211
    ensures forall i :: 0 <= i < 200 ==> f[i] == '^'
    ensures forall i :: 200 <= i < 205 ==> f[i] == 'R'
    ensures forall i :: 205 <= i < 210 ==> f[i] == 'S'
    ensures f[210] == '@'
  {
    seq(200, _ => '^') + seq(5, _ => 'R') + seq(5, _ => 'S') + ['@']
  }

  /** The map as tiles indexed [x][y], and the open-tile list. */
  datatype Layout = Layout(board: seq<seq<char>>, open: seq<Pos>)

  /** An n by n board whose open tiles all lie on it. */
  predicate Fits(l: Layout, n: nat)
  {
    |l.board| == n && (forall x :: 0 <= x < n ==> |l.board[x]| == n) &&
    forall k :: 0 <= k < |l.open| ==> InSquare(l.open[k], n)
  }

  /** placeTile with index i: the tile goes to open[i], and remove copies
      the last entry into slot i. The shortened slice remove returns is
      dropped, so the list keeps its length. */
  function Place(l: Layout, n: nat, tile: char, i: nat): (r: Layout)
    requires Fits(l, n) && i < |l.open|
    ensures Fits(r, n) && |r.open| == |l.open|
    ensures forall q :: q in r.open ==> q in l.open
  {
    var p := l.open[i];
    Layout(l.board[p.x := l.board[p.x][p.y := tile]], l.open[i := l.open[|l.open| - 1]])
  }

  /** One placeTile per tile, the k-th with index picks[k]. */
  function PlaceAll(l: Layout, n: nat, tiles: seq<char>, picks: seq<nat>): (r: Layout)
    requires Fits(l, n) && |picks| == |tiles|
    requires forall k :: 0 <= k < |picks| ==> picks[k] < |l.open|
    ensures Fits(r, n) && |r.open| == |l.open|
    ensures forall q :: q in r.open ==> q in l.open
    decreases |tiles|
  {
    if |tiles| == 0 then l
    else
      var m := PlaceAll(l, n, tiles[..|tiles| - 1], picks[..|picks| - 1]);
      Place(m, n, tiles[|tiles| - 1], picks[|picks| - 1])
  }

  /** The map after the scan. */
  function Base(noise: (int, int) -> real, n: nat): (b: seq<seq<char>>)
  {
    seq(n, x => seq(n, y => BaseTile(noise, n, x, y)))
  }

  function Scanned(noise: (int, int) -> real, n: nat): (l: Layout)
    ensures Fits(l, n)
  {
    OpenTilesExact(noise, n);
    Layout(Base(noise, n), OpenTiles(noise, n))
  }

  /** Every index rand.Intn can return: one per feature, each below the
      length of the open-tile list. */
  predicate ValidPicks(noise: (int, int) -> real, n: nat, picks: seq<nat>)
  {
    |picks| == |Features()| && forall k :: 0 <= k < |picks| ==> picks[k] < |OpenTiles(noise, n)|
  }

  /** The layout once all features are placed. */
  function Final(noise: (int, int) -> real, n: nat, picks: seq<nat>): Layout
    requires ValidPicks(noise, n, picks)
  {
    PlaceAll(Scanned(noise, n), n, Features(), picks)
  }

  /** Placement writes only cells of the open-tile list it started from, and
      only tiles it was given. */
  lemma {:induction false} PlaceAllCells(l: Layout, n: nat, tiles: seq<char>, picks: seq<nat>, x: int, y: int)
    requires Fits(l, n) && |picks| == |tiles|
    requires forall k :: 0 <= k < |picks| ==> picks[k] < |l.open|
    requires 0 <= x < n && 0 <= y < n
    ensures var r := PlaceAll(l, n, tiles, picks);
      r.board[x][y] == l.board[x][y] || r.board[x][y] in tiles
    ensures var r := PlaceAll(l, n, tiles, picks);
      G.Pos(x, y) !in l.open ==> r.board[x][y] == l.board[x][y]
    decreases |tiles|
  {
    if |tiles| > 0 {
      var init := tiles[..|tiles| - 1];
      PlaceAllCells(l, n, init, picks[..|picks| - 1], x, y);
      var m := PlaceAll(l, n, init, picks[..|picks| - 1]);
      assert forall c :: c in init ==> c in tiles;
      assert m.open[picks[|picks| - 1]] in m.open;
    }
  }

  /** The border stays wall, and water and gold are never covered: only
      cells that were ',' or '.' after the scan can receive a feature. */
  lemma FinalKeepsClosedCells(noise: (int, int) -> real, n: nat, picks: seq<nat>, x: int, y: int)
    requires ValidPicks(noise, n, picks) && 0 <= x < n && 0 <= y < n
    requires OnBorder(n, x, y) || !IsOpen(noise, n, x, y)
    ensures Final(noise, n, picks).board[x][y] == BaseTile(noise, n, x, y)
    ensures OnBorder(n, x, y) ==> Final(noise, n, picks).board[x][y] == '#'
  {
    OpenTilesExact(noise, n);
    PlaceAllCells(Scanned(noise, n), n, Features(), picks, x, y);
  }

  /** The cell of the last placement, the player spawn. */
  function Spawn(noise: (int, int) -> real, n: nat, picks: seq<nat>): Pos
    requires ValidPicks(noise, n, picks)
  {
    var m := PlaceAll(Scanned(noise, n), n, Features()[..210], picks[..210]);
    m.open[picks[210]]
  }

  /** Exactly one cell holds the player, and it is an interior cell that
      was ',' or '.' after the scan. */
  lemma SpawnUnique(noise: (int, int) -> real, n: nat, picks: seq<nat>)
    requires ValidPicks(noise, n, picks)
    ensures var q := Spawn(noise, n, picks);
      InSquare(q, n) && !OnBorder(n, q.x, q.y) && IsOpen(noise, n, q.x, q.y)
    ensures var q := Spawn(noise, n, picks);
      forall x, y :: 0 <= x < n && 0 <= y < n ==>
        (Final(noise, n, picks).board[x][y] == '@' <==> G.Pos(x, y) == q)
  {
    var l := Scanned(noise, n);
    var m := PlaceAll(l, n, Features()[..210], picks[..210]);
    OpenTilesExact(noise, n);
    assert m.open[picks[210]] in m.open;
    forall x, y | 0 <= x < n && 0 <= y < n
      ensures Final(noise, n, picks).board[x][y] == '@' <==> G.Pos(x, y) == Spawn(noise, n, picks)
    {
      SpawnCell(noise, n, picks, x, y);
    }
  }

  lemma SpawnCell(noise: (int, int) -> real, n: nat, picks: seq<nat>, x: int, y: int)
    requires ValidPicks(noise, n, picks) && 0 <= x < n && 0 <= y < n
    ensures Final(noise, n, picks).board[x][y] == '@' <==> G.Pos(x, y) == Spawn(noise, n, picks)
  {
    var l := Scanned(noise, n);
    var f := Features();
    var init := f[..210];
    assert f[..|f| - 1] == init && picks[..|picks| - 1] == picks[..210];
    PlaceAllCells(l, n, init, picks[..210], x, y);
    assert '@' !in init;
    assert l.board[x][y] == BaseTile(noise, n, x, y);
  }

  /** Dropping remove's result lets a later feature land on a cell that
      is already taken while an open cell stays free: from [a, b, c] with
      indices 0, 2, 0 the spider overwrites the rat at c and b stays ','. */
  lemma RepeatedPlacement()
    ensures var l := Layout(seq(3, _ => ",,,"), [G.Pos(0, 0), G.Pos(1, 0), G.Pos(2, 0)]);
      var r := PlaceAll(l, 3, "^RS", [0, 2, 0]);
      r.board[0][0] == '^' && r.board[2][0] == 'S' && r.board[1][0] == ',' &&
      r.open == [G.Pos(2, 0), G.Pos(1, 0), G.Pos(2, 0)]
  {
    var l := Layout(seq(3, _ => ",,,"), [G.Pos(0, 0), G.Pos(1, 0), G.Pos(2, 0)]);
    var w: seq<nat> := [0, 2, 0];
    assert "^RS"[..2] == "^R" && "^R"[..1] == "^" && ""[..0] == "";
    assert w[..2] == [0, 2] && [0, 2][..1] == [0];
    var r1 := PlaceAll(l, 3, "^", [0]);
    assert r1 == Place(l, 3, '^', 0);
    var r2 := PlaceAll(l, 3, "^R", [0, 2]);
    assert r2 == Place(r1, 3, 'R', 2);
    assert PlaceAll(l, 3, "^RS", w) == Place(r2, 3, 'S', 0);
  }

  /** One line of output: genMap[0][y] .. genMap[x-1][y]. */
  function Line(b: seq<seq<char>>, n: nat, y: nat, x: nat): string
    requires |b| == n && (forall i :: 0 <= i < n ==> |b[i]| == n) && y < n && x <= n
  {
    if x == 0 then [] else Line(b, n, y, x - 1) + [b[x - 1][y]]
  }

  /** The text written for the first y rows, each ended by a newline. */
  function Rows(b: seq<seq<char>>, n: nat, y: nat): string
    requires |b| == n && (forall i :: 0 <= i < n ==> |b[i]| == n) && y <= n
  {
    if y == 0 then [] else Rows(b, n, y - 1) + Line(b, n, y - 1, n) + "\n"
  }

  lemma {:induction false} LineIndex(b: seq<seq<char>>, n: nat, y: nat, x: nat)
    requires |b| == n && (forall i :: 0 <= i < n ==> |b[i]| == n) && y < n && x <= n
    ensures |Line(b, n, y, x)| == x
    ensures forall i :: 0 <= i < x ==> Line(b, n, y, x)[i] == b[i][y]
  {
    if x > 0 {
      LineIndex(b, n, y, x - 1);
    }
  }

  /** Where line r of the text starts: each line before it holds n
      characters and a newline. */
  function LineStart(n: nat, r: nat): nat
  {
    if r == 0 then 0 else LineStart(n, r - 1) + n + 1
  }

  lemma {:induction false} LineStartFormula(n: nat, r: nat)
    ensures LineStart(n, r) == r * (n + 1)
  {
    if r > 0 {
      LineStartFormula(n, r - 1);
      assert r * (n + 1) == (r - 1) * (n + 1) + n + 1;
    }
  }

  /** Where column x of line r of the text sits. */
  function Offset(n: nat, r: nat, x: nat): nat
  {
    LineStart(n, r) + x
  }

  lemma {:induction false} RowsLength(b: seq<seq<char>>, n: nat, y: nat)
    requires |b| == n && (forall i :: 0 <= i < n ==> |b[i]| == n) && y <= n
    ensures |Rows(b, n, y)| == LineStart(n, y)
  {
    if y > 0 {
      RowsLength(b, n, y - 1);
      LineIndex(b, n, y - 1, n);
    }
  }

  /** Column x of line r of the text is genMap[x][r], and column n is the
      newline ending the line. */
  lemma {:induction false} RowsAt(b: seq<seq<char>>, n: nat, y: nat, r: nat, x: nat)
    requires |b| == n && (forall i :: 0 <= i < n ==> |b[i]| == n) && y <= n
    requires r < y && x <= n
    ensures Offset(n, r, x) < |Rows(b, n, y)|
    ensures Rows(b, n, y)[Offset(n, r, x)] == if x < n then b[x][r] else '\n'
  {
    if r < y - 1 {
      RowsAt(b, n, y - 1, r, x);
      RowsPrefix(b, n, y, Offset(n, r, x));
    } else {
      assert y == r + 1;
      RowsLast(b, n, r, x);
    }
  }

  /** Writing line y - 1 keeps everything written before it. */
  lemma RowsPrefix(b: seq<seq<char>>, n: nat, y: nat, o: nat)
    requires |b| == n && (forall i :: 0 <= i < n ==> |b[i]| == n) && 0 < y <= n
    requires o < |Rows(b, n, y - 1)|
    ensures o < |Rows(b, n, y)| && Rows(b, n, y)[o] == Rows(b, n, y - 1)[o]
  {
    assert Rows(b, n, y) == Rows(b, n, y - 1) + (Line(b, n, y - 1, n) + "\n");
  }

  /** Column x of line r, once it is written, is genMap[x][r], or the newline. */
  lemma RowsLast(b: seq<seq<char>>, n: nat, r: nat, x: nat)
    requires |b| == n && (forall i :: 0 <= i < n ==> |b[i]| == n) && r < n && x <= n
    ensures Offset(n, r, x) < |Rows(b, n, r + 1)|
    ensures Rows(b, n, r + 1)[Offset(n, r, x)] == if x < n then b[x][r] else '\n'
  {
    RowsLength(b, n, r);
    LineIndex(b, n, r, n);
    var prev := Rows(b, n, r);
    var last := Line(b, n, r, n) + "\n";
    assert Rows(b, n, r + 1) == prev + last;
    var o := Offset(n, r, x);
    assert o == |prev| + x;
    assert (prev + last)[o] == last[x];
    if x < n {
      assert last[x] == Line(b, n, r, n)[x];
    }
  }

  /** The whole text: n lines of n + 1 characters; at column x of line r
      is genMap[x][r], and each line ends with a newline. */
  lemma RenderLayout(b: seq<seq<char>>, n: nat)
    requires |b| == n && (forall i :: 0 <= i < n ==> |b[i]| == n)
    ensures |Rows(b, n, n)| == n * (n + 1)
    ensures forall r, x :: 0 <= r < n && 0 <= x < n ==>
              Offset(n, r, x) < |Rows(b, n, n)| && Rows(b, n, n)[Offset(n, r, x)] == b[x][r]
    ensures forall r :: 0 <= r < n ==>
              Offset(n, r, n) < |Rows(b, n, n)| && Rows(b, n, n)[Offset(n, r, n)] == '\n'
  {
    RowsLength(b, n, n);
    LineStartFormula(n, n);
    forall r, x | 0 <= r < n && 0 <= x <= n
      ensures Offset(n, r, x) < |Rows(b, n, n)|
      ensures Rows(b, n, n)[Offset(n, r, x)] == if x < n then b[x][r] else '\n'
    {
      RowsAt(b, n, n, r, x);
    }
  }

  /** What the generated text shows at column x of line y: a wall on the
      border, the scan's tile wherever no feature could land, and the
      player exactly at the spawn cell. */
  lemma GeneratedText(noise: (int, int) -> real, n: nat, picks: seq<nat>, x: nat, y: nat)
    requires ValidPicks(noise, n, picks) && x < n && y < n
    ensures var text := Rows(Final(noise, n, picks).board, n, n);
      Offset(n, y, x) < |text| && Offset(n, y, n) < |text| && text[Offset(n, y, n)] == '\n'
    ensures var text := Rows(Final(noise, n, picks).board, n, n);
      Offset(n, y, x) < |text| &&
      (OnBorder(n, x, y) ==> text[Offset(n, y, x)] == '#') &&
      (!IsOpen(noise, n, x, y) ==> text[Offset(n, y, x)] == BaseTile(noise, n, x, y)) &&
      (text[Offset(n, y, x)] == '@' <==> G.Pos(x, y) == Spawn(noise, n, picks))
  {
    var b := Final(noise, n, picks).board;
    RowsAt(b, n, n, y, x);
    RowsAt(b, n, n, y, n);
    if OnBorder(n, x, y) || !IsOpen(noise, n, x, y) {
      FinalKeepsClosedCells(noise, n, picks, x, y);
    }
    SpawnCell(noise, n, picks, x, y);
  }

  /** The array genMap holds the board b. */
  ghost predicate Holds(a: array2<char>, b: seq<seq<char>>)
    reads a
  {
    |b| == a.Length0 && (forall i :: 0 <= i < |b| ==> |b[i]| == a.Length1) &&
    forall i, j :: 0 <= i < a.Length0 && 0 <= j < a.Length1 ==> a[i, j] == b[i][j]
  }

  /** GenerateNewLevel without the file writing: the text it writes, or
      ok == false when the scan finds no open tile and the first placeTile
      panics in rand.Intn(0). */
  method GenerateNewLevel(xSize: nat, ySize: nat, noise: (int, int) -> real, picks: seq<nat>)
      returns (ok: bool, text: string)
    requires xSize == ySize
    requires OpenTiles(noise, xSize) != [] ==> ValidPicks(noise, xSize, picks)
    ensures ok <==> OpenTiles(noise, xSize) != []
    ensures ok ==> text == Rows(Final(noise, xSize, picks).board, xSize, ySize)
  {
    var genMap := new char[ySize, xSize]((i, j) => '\0');
    var open := ScanNoise(genMap, noise, xSize, ySize);
    if |open| == 0 {
      return false, "";
    }
    ok := true;
    var openTiles := new Pos[|open|](k requires 0 <= k < |open| => open[k]);
    ghost var l := Scanned(noise, xSize);
    assert openTiles[..] == l.open;
    PlaceFeatures(openTiles, genMap, xSize, picks, l);
    text := Write(genMap, xSize, ySize, Final(noise, xSize, picks).board);
  }

  /** The noise scan: border cells become '#', interior cells are
      classified, and every ',' or '.' cell is appended to the open list. */
  method ScanNoise(genMap: array2<char>, noise: (int, int) -> real, xSize: nat, ySize: nat)
      returns (open: seq<Pos>)
    requires xSize == ySize && genMap.Length0 == ySize && genMap.Length1 == xSize
    modifies genMap
    ensures Holds(genMap, Base(noise, xSize))
    ensures open == OpenTiles(noise, xSize)
  {
    open := [];
    for y := 0 to ySize
      invariant open == OpenBefore(noise, xSize, y, 0)
      invariant forall i, j :: 0 <= i < xSize && 0 <= j < y ==> genMap[i, j] == BaseTile(noise, xSize, i, j)
    {
      for x := 0 to xSize
        invariant open == OpenBefore(noise, xSize, y, x)
        invariant forall i, j :: 0 <= i < xSize && 0 <= j < ySize && (j < y || (j == y && i < x)) ==>
                    genMap[i, j] == BaseTile(noise, xSize, i, j)
      {
        var val := noise(x, y);
        if x == 0 || x == xSize - 1 || y == 0 || y == ySize - 1 {
          genMap[x, y] := '#';
          continue;
        }
        if val < -0.4 {
          genMap[x, y] := '~';
        } else if val >= -0.4 && val < -0.3 {
          genMap[x, y] := '$';
        } else if val >= -0.3 && val < 0.3 {
          genMap[x, y] := ',';
          open := open + [G.Pos(x, y)];
        } else if val >= 0.3 {
          genMap[x, y] := '.';
          open := open + [G.Pos(x, y)];
        }
      }
    }
  }

  /** The four placement loops, one placeTile per entry of Features(). */
  method PlaceFeatures(openTiles: array<Pos>, genMap: array2<char>, n: nat, picks: seq<nat>, ghost l: Layout)
    requires Fits(l, n) && |picks| == |Features()|
    requires forall k :: 0 <= k < |picks| ==> picks[k] < |l.open|
    requires Holds(genMap, l.board) && openTiles[..] == l.open
    modifies openTiles, genMap
    ensures Holds(genMap, PlaceAll(l, n, Features(), picks).board)
    ensures openTiles[..] == PlaceAll(l, n, Features(), picks).open
  {
    var features := Features();
    for k := 0 to |features|
      invariant Holds(genMap, PlaceAll(l, n, features[..k], picks[..k]).board)
      invariant openTiles[..] == PlaceAll(l, n, features[..k], picks[..k]).open
    {
      ghost var m := PlaceAll(l, n, features[..k], picks[..k]);
      forall q | 0 <= q < openTiles.Length
        ensures 0 <= openTiles[q].x < genMap.Length0 && 0 <= openTiles[q].y < genMap.Length1
      {
        assert openTiles[q] == m.open[q] && InSquare(m.open[q], n);
        assert |m.board[openTiles[q].x]| == genMap.Length1;
      }
      PlaceTile(openTiles, genMap, features[k], picks[k], m.board);
      PlaceAllStep(l, n, features, picks, k);
    }
    assert features[..|features|] == features && picks[..|picks|] == picks;
  }

  lemma PlaceAllStep(l: Layout, n: nat, tiles: seq<char>, picks: seq<nat>, k: nat)
    requires Fits(l, n) && |picks| == |tiles| && k < |tiles|
    requires forall k :: 0 <= k < |picks| ==> picks[k] < |l.open|
    ensures var m := PlaceAll(l, n, tiles[..k], picks[..k]);
      PlaceAll(l, n, tiles[..k + 1], picks[..k + 1]) == Place(m, n, tiles[k], picks[k])
  {
    assert tiles[..k + 1][..k] == tiles[..k] && picks[..k + 1][..k] == picks[..k];
  }

  /** placeTile: the tile goes to openTiles[index], which remove then
      overwrites with the last entry; no other cell of genMap changes. */
  method PlaceTile(openTiles: array<Pos>, genMap: array2<char>, tile: char, index: nat, ghost b: seq<seq<char>>)
    requires index < openTiles.Length && Holds(genMap, b)
    requires forall k :: 0 <= k < openTiles.Length ==>
               0 <= openTiles[k].x < genMap.Length0 && 0 <= openTiles[k].y < genMap.Length1
    modifies openTiles, genMap
    ensures openTiles[..] == old(openTiles[..])[index := old(openTiles[openTiles.Length - 1])]
    ensures var p := old(openTiles[index]);
      Holds(genMap, b[p.x := b[p.x][p.y := tile]])
  {
    var mPos := openTiles[index];
    var _ := Remove(openTiles, index);
    genMap[mPos.x, mPos.y] := tile;
  }

  /** remove: slot i gets the last entry; the result is the slice without
      its last slot, which shares s's storage. */
  method Remove(s: array<Pos>, i: nat) returns (rest: seq<Pos>)
    requires i < s.Length
    modifies s
    ensures s[..] == old(s[..])[i := old(s[s.Length - 1])]
    ensures rest == s[..s.Length - 1]
  {
    s[i] := s[s.Length - 1];
    rest := s[..s.Length - 1];
  }

  /** What remove leaves: the same length, nothing new, and slot i now a
      copy of the last entry. */
  lemma RemoveDuplicates(s: seq<Pos>, i: nat)
    requires i < |s|
    ensures var t := s[i := s[|s| - 1]];
      |t| == |s| && (forall q :: q in t ==> q in s) && t[i] == t[|t| - 1]
  {
  }

  /** The output loop: row by row, genMap[x][y] for each x, then a newline. */
  method Write(genMap: array2<char>, xSize: nat, ySize: nat, ghost b: seq<seq<char>>) returns (text: string)
    requires xSize == ySize && genMap.Length0 == ySize && genMap.Length1 == xSize
    requires Holds(genMap, b)
    ensures text == Rows(b, xSize, ySize)
  {
    text := "";
    for y := 0 to ySize
      invariant text == Rows(b, xSize, y)
    {
      for x := 0 to xSize
        invariant text == Rows(b, xSize, y) + Line(b, xSize, y, x)
      {
        text := text + [genMap[x, y]];
      }
      text := text + "\n";
    }
  }
}
