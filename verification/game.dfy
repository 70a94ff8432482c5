/**
 * The map-conversion layer of the game screen: it turns the editor's flat,
 * row-major list of cells into what the engine consumes — a grid of wall
 * colour tags, the player's spawn pose, the enemy list, and the goal and
 * hazard coordinates.
 */
module Game {
  import opened Cells
  import opened ArrayOps
  import opened Arithmetic

  /** An integer pair: a grid cell (`x` the column, `y` the row) or a direction. */
  datatype Vec2 = Vec2(x: int, y: int)

  /** The two enemy sprites. */
  datatype Sprite = Circle | Square

  /** One entry of the enemy list. */
  datatype EnemySpawn = EnemySpawn(position: Vec2, kind: Sprite)

  /**
   * The player's initial pose.  `direction` is `None` where the source's table
   * lookup yields `undefined` (a map without a spawn cell).
   */
  datatype PlayerSpawn = PlayerSpawn(position: Vec2, direction: Option<Vec2>)

  /** Wall cell to engine colour tag; any other cell has no entry. */
  const OutieToInner: map<Cell, nat> := map[
    WallRed := 1, WallGreen := 2, WallBlue := 3,
    WallCyan := 5, WallMagenta := 6, WallYellow := 7]

  /** Spawn cell to the player's initial direction. */
  const PlayerPosMapping: map<Cell, Vec2> := map[
    PlayerL := Vec2(-1, 0), PlayerTL := Vec2(-1, 1), PlayerT := Vec2(0, 1), PlayerTR := Vec2(1, 1),
    PlayerR := Vec2(1, 0), PlayerBR := Vec2(1, -1), PlayerB := Vec2(0, -1), PlayerBL := Vec2(-1, -1)]

  function Min(a: int, b: int): int { if a <= b then a else b }

  // ---------------------------------------------------------------------
  // Index and coordinates

  /** JavaScript's `a % b` for `b > 0`: it truncates, so the result takes the sign of `a`. */
  function JsRemainder(a: int, b: int): (r: int)
    requires b > 0
    ensures a >= 0 ==> 0 <= r < b
    ensures a < 0 ==> -b < r <= 0
  {
    if a >= 0 then a % b else -((-a) % b)
  }

  /** The row-major index of grid cell `p`. */
  function ToIndex(p: Vec2, columns: int): int {
    p.y * columns + p.x
  }

  /**
   * `{ x: index % columns, y: Math.floor(index / columns) }`.  For a positive
   * divisor Dafny's `/` is floor division; `%` is written out as JavaScript's.
   * A non-negative index lands in the grid and is recovered by `ToIndex`; a
   * negative one lands left of and above it.
   */
  function IndexToCoordinates(index: int, columns: int): (p: Vec2)
    requires columns > 0
    ensures p.y * columns <= index < p.y * columns + columns
    ensures index >= 0 ==> 0 <= p.x < columns && 0 <= p.y && ToIndex(p, columns) == index
    ensures index < 0 ==> -columns < p.x <= 0 && p.y < 0
    ensures index < 0 ==> ToIndex(p, columns) == if p.x == 0 then index else index - columns
  {
    JsCoordinates(index, columns);
    Vec2(JsRemainder(index, columns), index / columns)
  }

  /** The arithmetic behind IndexToCoordinates, for either sign of the index. */
  lemma JsCoordinates(index: int, columns: int)
    requires columns > 0
    ensures var x, y := JsRemainder(index, columns), index / columns;
      && y * columns <= index < y * columns + columns
      && (index >= 0 ==> 0 <= y && y * columns + x == index)
      && (index < 0 ==> y < 0 && y * columns + x == if x == 0 then index else index - columns)
  {
    var y := index / columns;
    DivMod(index, columns);
    if index >= 0 {
      if y < 0 { MulAtLeast(-y, columns); }
    } else {
      var a := -index;
      var q, r := a / columns, a % columns;
      DivMod(a, columns);
      if r == 0 {
        DivModUnique(index, columns, -q, 0);
      } else {
        DivModUnique(index, columns, -q - 1, columns - r);
        MulPred(-q, columns);
      }
      if y >= 0 { MulNonneg(y, columns); }
    }
  }

  /** Every cell of a `columns`-wide grid is reached from exactly its own index. */
  lemma {:induction false} CoordinatesRoundTrip(p: Vec2, columns: int)
    requires columns > 0 && 0 <= p.x < columns && 0 <= p.y
    ensures IndexToCoordinates(ToIndex(p, columns), columns) == p
  {
    MulNonneg(p.y, columns);
    DivModUnique(ToIndex(p, columns), columns, p.y, p.x);
  }

  // ---------------------------------------------------------------------
  // The wall grid

  /** The per-cell step of buildMap: `cell ? (outieToInnerMap[cell] ?? 0) : 0`. */
  function WallTag(c: Cell): (tag: nat)
    ensures tag in {0, 1, 2, 3, 5, 6, 7}
    ensures tag != 0 <==> IsWall(c)
  {
    WallCells(c);
    if c == Empty then 0 else if c in OutieToInner then OutieToInner[c] else 0
  }

  /** Distinct wall colours stay distinct in the grid. */
  lemma WallTagInjective(a: Cell, b: Cell)
    requires IsWall(a) && WallTag(a) == WallTag(b)
    ensures a == b
  {
  }

  /** `map.map(cell => ...)`: the tag of every cell, in order. */
  function Transform(m: seq<Cell>): seq<nat> {
    seq(|m|, i requires 0 <= i < |m| => WallTag(m[i]))
  }

  /** Row `k` of a grid `columns` wide never starts past the end of the map. */
  lemma RowStartInRange(n: nat, columns: int, k: nat)
    requires columns > 0 && k < (n + columns - 1) / columns
    ensures k * columns < n
  {
    var q := (n + columns - 1) / columns;
    DivMod(n + columns - 1, columns);
    MulMonotone(k, q - 1, columns);
    MulPred(q, columns);
  }

  /** The number of `columns`-wide rows needed to cover `n` cells is `q`. */
  lemma RowCountUnique(n: nat, columns: int, q: nat)
    requires columns > 0 && n <= q * columns && (q == 0 || (q - 1) * columns < n)
    ensures q == (n + columns - 1) / columns
  {
    MulPred(q, columns);
    DivModUnique(n + columns - 1, columns, q, n + columns - 1 - q * columns);
  }

  /** Row `k` of the grid: the slice `transformed.slice(i, i + columns)` with `i == k * columns`. */
  function Row(t: seq<nat>, columns: int, k: nat): seq<nat>
    requires columns > 0 && k < (|t| + columns - 1) / columns
  {
    RowStartInRange(|t|, columns, k);
    t[k * columns .. Min(k * columns + columns, |t|)]
  }

  /** The grid buildMap returns: the tags cut into rows of `columns` cells. */
  function Grid(m: seq<Cell>, columns: int): seq<seq<nat>>
    requires columns > 0
  {
    var t := Transform(m);
    seq((|m| + columns - 1) / columns, k requires 0 <= k < (|m| + columns - 1) / columns => Row(t, columns, k))
  }

  /** A row that starts inside the map is one of the grid's rows. */
  lemma RowsBelowCount(n: nat, columns: int, q: nat)
    requires columns > 0 && q * columns < n
    ensures q < (n + columns - 1) / columns
  {
    var d := (n + columns - 1) / columns;
    DivMod(n + columns - 1, columns);
    if q >= d {
      MulMonotone(d, q, columns);
    }
  }

  /** The number of rows is the ceiling of `n / columns`; the last row holds the remainder. */
  lemma RowCount(n: nat, columns: int)
    requires columns > 0
    ensures var q := (n + columns - 1) / columns;
      && n <= q * columns
      && (q == 0 || (q - 1) * columns < n)
      && (q > 0 ==> n - (q - 1) * columns == if n % columns == 0 then columns else n % columns)
  {
    var q := n / columns + (if n % columns == 0 then 0 else 1);
    DivMod(n, columns);
    MulPred(q, columns);
    RowCountUnique(n, columns, q);
  }

  /** A row before the last one ends inside the map. */
  lemma FullRow(n: nat, columns: int, k: nat)
    requires columns > 0 && k + 1 < (n + columns - 1) / columns
    ensures k * columns + columns <= n
  {
    RowStartInRange(n, columns, k + 1);
    MulPred(k + 1, columns);
  }

  /** The last row runs from its start to the end of the map. */
  lemma LastRow(n: nat, columns: int)
    requires columns > 0 && (n + columns - 1) / columns > 0
    ensures var k := (n + columns - 1) / columns - 1;
      Min(k * columns + columns, n) - k * columns == if n % columns == 0 then columns else n % columns
  {
    var q := (n + columns - 1) / columns;
    RowCount(n, columns);
    MulPred(q, columns);
  }

  /** buildMap: walk the tags `columns` at a time, pushing one slice per row. */
  method BuildMap(m: seq<Cell>, columns: int) returns (innerMap: seq<seq<nat>>)
    requires columns > 0
    ensures innerMap == Grid(m, columns)
  {
    var transformed := Transform(m);
    innerMap := [];
    var i := 0;
    while i < |m|
      invariant i == |innerMap| * columns
      invariant innerMap == [] || i - columns < |m|
      invariant |innerMap| <= (|m| + columns - 1) / columns
      invariant forall k :: 0 <= k < |innerMap| ==> innerMap[k] == Row(transformed, columns, k)
    {
      RowsBelowCount(|m|, columns, |innerMap|);
      MulPred(|innerMap| + 1, columns);
      innerMap := innerMap + [transformed[i .. Min(i + columns, |m|)]];
      i := i + columns;
    }
    MulPred(|innerMap|, columns);
    RowCountUnique(|m|, columns, |innerMap|);
  }

  /** The grid has the fewest rows of `columns` cells that hold the whole map. */
  lemma GridRowCount(m: seq<Cell>, columns: int)
    requires columns > 0
    ensures |m| <= |Grid(m, columns)| * columns
    ensures Grid(m, columns) == [] || (|Grid(m, columns)| - 1) * columns < |m|
  {
    RowCount(|m|, columns);
  }

  /**
   * Every row but the last is `columns` wide; the last holds the remainder of
   * the map's length, or a full row when `columns` divides it.
   */
  lemma GridRowLengths(m: seq<Cell>, columns: int)
    requires columns > 0
    ensures var g := Grid(m, columns);
      forall k :: 0 <= k < |g| - 1 ==> |g[k]| == columns
    ensures var g := Grid(m, columns);
      g != [] ==> |g[|g| - 1]| == if |m| % columns == 0 then columns else |m| % columns
  {
    var g := Grid(m, columns);
    var t := Transform(m);
    forall k | 0 <= k < |g| - 1
      ensures |g[k]| == columns
    {
      FullRow(|m|, columns, k);
      assert g[k] == Row(t, columns, k);
    }
    if g != [] {
      LastRow(|m|, columns);
      assert g[|g| - 1] == Row(t, columns, |g| - 1);
    }
  }

  /** The grid is rectangular exactly when `columns` divides the map's length. */
  lemma GridRectangular(m: seq<Cell>, columns: int)
    requires columns > 0
    ensures (forall k :: 0 <= k < |Grid(m, columns)| ==> |Grid(m, columns)[k]| == columns)
      <==> |m| % columns == 0
  {
    var g := Grid(m, columns);
    GridRowLengths(m, columns);
    GridRowCount(m, columns);
    if |m| % columns != 0 {
      assert |g[|g| - 1]| != columns;
    }
  }

  /** The first `k` rows of the grid laid end to end are the first `k * columns` tags. */
  lemma {:induction false} FlattenRows(m: seq<Cell>, columns: int, k: nat)
    requires columns > 0 && k <= |Grid(m, columns)|
    ensures Flatten(Grid(m, columns)[..k]) == Transform(m)[..Min(k * columns, |m|)]
  {
    var g := Grid(m, columns);
    var t := Transform(m);
    if k > 0 {
      var start := (k - 1) * columns;
      FlattenRows(m, columns, k - 1);
      RowStartInRange(|m|, columns, k - 1);
      MulPred(k, columns);
      assert g[..k][..k - 1] == g[..k - 1];
      assert Flatten(g[..k]) == Flatten(g[..k - 1]) + g[k - 1];
      assert g[k - 1] == t[start .. Min(start + columns, |m|)];
      assert Flatten(g[..k - 1]) == t[..start];
      assert t[..start] + t[start .. Min(start + columns, |m|)] == t[..Min(start + columns, |m|)];
    }
  }

  /** Concatenating the grid's rows gives back the tag of every cell, in order. */
  lemma GridFlatten(m: seq<Cell>, columns: int)
    requires columns > 0
    ensures |Flatten(Grid(m, columns))| == |m|
    ensures forall i :: 0 <= i < |m| ==> Flatten(Grid(m, columns))[i] == WallTag(m[i])
  {
    var g := Grid(m, columns);
    GridRowCount(m, columns);
    FlattenRows(m, columns, |g|);
    assert g[..|g|] == g;
  }

  /** The grid cell at the coordinates of index `i` holds the tag of `m[i]`. */
  lemma CellAtCoordinates(m: seq<Cell>, columns: int, i: nat)
    requires columns > 0 && i < |m|
    ensures var p := IndexToCoordinates(i, columns);
      var g := Grid(m, columns);
      p.y < |g| && p.x < |g[p.y]| && g[p.y][p.x] == WallTag(m[i])
  {
    var p := IndexToCoordinates(i, columns);
    var q := (|m| + columns - 1) / columns;
    RowCount(|m|, columns);
    if p.y >= q {
      MulMonotone(q, p.y, columns);
    }
    assert Grid(m, columns)[p.y] == Row(Transform(m), columns, p.y);
  }

  /** Grid cell `(x, y)` holds the tag of the map cell at its row-major index. */
  lemma CellAtIndex(m: seq<Cell>, columns: int, y: nat, x: nat)
    requires columns > 0 && y < |Grid(m, columns)| && x < |Grid(m, columns)[y]|
    ensures 0 <= ToIndex(Vec2(x, y), columns) < |m|
    ensures Grid(m, columns)[y][x] == WallTag(m[ToIndex(Vec2(x, y), columns)])
  {
    RowStartInRange(|m|, columns, y);
    MulNonneg(y, columns);
    assert Grid(m, columns)[y] == Transform(m)[y * columns .. Min(y * columns + columns, |m|)];
  }

  /**
   * The grid and the coordinates agree: the cell at the coordinates of index
   * `i` holds the tag of `m[i]`, and every grid cell is the tag of the map
   * cell at its row-major index.
   */
  lemma GridAgreesWithCoordinates(m: seq<Cell>, columns: int)
    requires columns > 0
    ensures forall i :: 0 <= i < |m| ==>
      var p := IndexToCoordinates(i, columns);
      var g := Grid(m, columns);
      p.y < |g| && p.x < |g[p.y]| && g[p.y][p.x] == WallTag(m[i])
    ensures forall y, x :: 0 <= y < |Grid(m, columns)| && 0 <= x < |Grid(m, columns)[y]| ==>
      0 <= ToIndex(Vec2(x, y), columns) < |m| &&
      Grid(m, columns)[y][x] == WallTag(m[ToIndex(Vec2(x, y), columns)])
  {
    forall i | 0 <= i < |m|
      ensures var p := IndexToCoordinates(i, columns);
        var g := Grid(m, columns);
        p.y < |g| && p.x < |g[p.y]| && g[p.y][p.x] == WallTag(m[i])
    {
      CellAtCoordinates(m, columns, i);
    }
    forall y, x | 0 <= y < |Grid(m, columns)| && 0 <= x < |Grid(m, columns)[y]|
      ensures 0 <= ToIndex(Vec2(x, y), columns) < |m|
      ensures Grid(m, columns)[y][x] == WallTag(m[ToIndex(Vec2(x, y), columns)])
    {
      CellAtIndex(m, columns, y, x);
    }
  }

  // ---------------------------------------------------------------------
  // Player, enemies, goals and hazards

  /** A unit grid step: both components in {-1, 0, 1}, not both zero. */
  predicate IsStep(v: Vec2) {
    -1 <= v.x <= 1 && -1 <= v.y <= 1 && v != Vec2(0, 0)
  }

  /**
   * `playerPosMapping[player]`, where `player` may be `undefined`: a direction
   * exactly for the spawn cells, and always a unit step.
   */
  function DirectionOf(player: Option<Cell>): (d: Option<Vec2>)
    ensures d.Some? <==> player.Some? && IsSpawn(player.value)
    ensures d.Some? ==> IsStep(d.value)
  {
    match player
    case None => None
    case Some(c) =>
      SpawnCells(c);
      if c in PlayerPosMapping then Some(PlayerPosMapping[c]) else None
  }

  /** Different spawn cells face different ways. */
  lemma SpawnDirectionsDistinct(a: Cell, b: Cell)
    requires IsSpawn(a) && IsSpawn(b) && a != b
    ensures DirectionOf(Some(a)) != DirectionOf(Some(b))
  {
  }

  /** Every one of the eight unit steps is the direction of some spawn cell. */
  lemma SpawnDirectionsCover(v: Vec2)
    requires IsStep(v)
    ensures exists c :: IsSpawn(c) && DirectionOf(Some(c)) == Some(v)
  {
    var c :=
      if v == Vec2(-1, 0) then PlayerL
      else if v == Vec2(-1, 1) then PlayerTL
      else if v == Vec2(0, 1) then PlayerT
      else if v == Vec2(1, 1) then PlayerTR
      else if v == Vec2(1, 0) then PlayerR
      else if v == Vec2(1, -1) then PlayerBR
      else if v == Vec2(0, -1) then PlayerB
      else PlayerBL;
    assert IsSpawn(c) && DirectionOf(Some(c)) == Some(v);
  }

  /** JavaScript places index -1 at `(-1 % columns, -1)`; `-1 % 1` is (negative) zero. */
  lemma MinusOneCoordinates(columns: int)
    requires columns > 0
    ensures IndexToCoordinates(-1, columns) == Vec2(if columns == 1 then 0 else -1, -1)
  {
    DivModUnique(-1, columns, -1, columns - 1);
    if columns == 1 {
      DivModUnique(1, columns, 1, 0);
    } else {
      DivModUnique(1, columns, 0, 1);
    }
  }

  /** The map has at least one spawn cell. */
  predicate HasSpawn(m: seq<Cell>) {
    exists i :: 0 <= i < |m| && IsSpawn(m[i])
  }

  /**
   * buildPlayer: the pose of the first spawn cell.  Without one, `findIndex`
   * gives -1, which JavaScript turns into the position `(-1 % columns, -1)`,
   * and the direction is undefined.
   */
  function BuildPlayer(m: seq<Cell>, columns: int): (player: PlayerSpawn)
    requires columns > 0
    ensures HasSpawn(m) ==>
      var i := ToIndex(player.position, columns);
      && 0 <= player.position.x < columns
      && 0 <= i < |m| && IsSpawn(m[i])
      && (forall k :: 0 <= k < i ==> !IsSpawn(m[k]))
      && player.direction.Some?
      && player.direction == DirectionOf(Some(m[i]))
    ensures !HasSpawn(m) ==>
      player == PlayerSpawn(Vec2(if columns == 1 then 0 else -1, -1), None)
  {
    var index := FindIndex(m, IsSpawn);
    var player := if 0 <= index then Some(m[index]) else None;
    var position := IndexToCoordinates(index, columns);
    assert index == -1 ==> position == Vec2(if columns == 1 then 0 else -1, -1) by {
      if index == -1 { MinusOneCoordinates(columns); }
    }
    assert 0 <= index ==> ToIndex(position, columns) == index;
    PlayerSpawn(position, DirectionOf(player))
  }

  /** The `map` step of buildFinals and buildDeaths: coordinates of each `target` cell, `undefined` elsewhere. */
  function TargetMarks(m: seq<Cell>, columns: int, target: Cell): seq<Option<Vec2>>
    requires columns > 0
  {
    seq(|m|, i requires 0 <= i < |m| =>
      if m[i] == target then Some(IndexToCoordinates(i, columns)) else None)
  }

  /** Entry `j` of the filtered list is the coordinates of the `j`-th `target` cell. */
  lemma TargetEntries(m: seq<Cell>, columns: int, target: Cell)
    requires columns > 0
    ensures var marked := TargetMarks(m, columns, target);
      var r := Compact(marked);
      forall j :: 0 <= j < |r| ==>
        var i := Kept(marked)[j];
        m[i] == target && r[j] == IndexToCoordinates(i, columns) && ToIndex(r[j], columns) == i
  {
  }

  /** Every `target` cell has its coordinates in the filtered list. */
  lemma TargetsComplete(m: seq<Cell>, columns: int, target: Cell, i: nat)
    requires columns > 0 && i < |m| && m[i] == target
    ensures IndexToCoordinates(i, columns) in Compact(TargetMarks(m, columns, target))
  {
    var marked := TargetMarks(m, columns, target);
    var r := Compact(marked);
    assert marked[i].Some?;
    var j :| 0 <= j < |Kept(marked)| && Kept(marked)[j] == i;
    assert r[j] == IndexToCoordinates(i, columns);
  }

  /**
   * The coordinates of the cells equal to `target`: `map` marks them and
   * `filter(Boolean)` drops the rest.  The result holds one entry per such
   * cell, in increasing index order, and nothing else.
   */
  function CoordinatesOf(m: seq<Cell>, columns: int, target: Cell): (r: seq<Vec2>)
    requires columns > 0
    ensures forall j :: 0 <= j < |r| ==>
      var i := ToIndex(r[j], columns);
      0 <= i < |m| && m[i] == target && r[j] == IndexToCoordinates(i, columns)
    ensures forall i :: 0 <= i < |m| && m[i] == target ==> IndexToCoordinates(i, columns) in r
    ensures forall j, k :: 0 <= j < k < |r| ==> ToIndex(r[j], columns) < ToIndex(r[k], columns)
  {
    TargetEntries(m, columns, target);
    forall i | 0 <= i < |m| && m[i] == target
      ensures IndexToCoordinates(i, columns) in Compact(TargetMarks(m, columns, target))
    {
      TargetsComplete(m, columns, target, i);
    }
    Compact(TargetMarks(m, columns, target))
  }

  /** buildFinals: the goal coordinates, one per `end` cell, in index order. */
  function BuildFinals(m: seq<Cell>, columns: int): (finals: seq<Vec2>)
    requires columns > 0
    ensures forall j :: 0 <= j < |finals| ==>
      var i := ToIndex(finals[j], columns);
      0 <= i < |m| && m[i] == End && finals[j] == IndexToCoordinates(i, columns)
    ensures forall i :: 0 <= i < |m| && m[i] == End ==> IndexToCoordinates(i, columns) in finals
    ensures forall j, k :: 0 <= j < k < |finals| ==> ToIndex(finals[j], columns) < ToIndex(finals[k], columns)
  {
    CoordinatesOf(m, columns, End)
  }

  /** buildDeaths: the hazard coordinates, one per `death` cell, in index order. */
  function BuildDeaths(m: seq<Cell>, columns: int): (deaths: seq<Vec2>)
    requires columns > 0
    ensures forall j :: 0 <= j < |deaths| ==>
      var i := ToIndex(deaths[j], columns);
      0 <= i < |m| && m[i] == Death && deaths[j] == IndexToCoordinates(i, columns)
    ensures forall i :: 0 <= i < |m| && m[i] == Death ==> IndexToCoordinates(i, columns) in deaths
    ensures forall j, k :: 0 <= j < k < |deaths| ==> ToIndex(deaths[j], columns) < ToIndex(deaths[k], columns)
  {
    CoordinatesOf(m, columns, Death)
  }

  /** The `map` step of buildEnemies: an entry for each enemy cell, `undefined` elsewhere. */
  function EnemyMarks(m: seq<Cell>, columns: int): seq<Option<EnemySpawn>>
    requires columns > 0
  {
    seq(|m|, i requires 0 <= i < |m| =>
      if !IsEnemyCell(m[i]) then None
      else Some(EnemySpawn(IndexToCoordinates(i, columns), if m[i] == EnemyCircle then Circle else Square)))
  }

  /** Entry `j` of the filtered enemy list comes from the `j`-th enemy cell. */
  lemma EnemyEntries(m: seq<Cell>, columns: int)
    requires columns > 0
    ensures var marked := EnemyMarks(m, columns);
      var r := Compact(marked);
      forall j :: 0 <= j < |r| ==>
        var i := Kept(marked)[j];
        && IsEnemyCell(m[i])
        && r[j].position == IndexToCoordinates(i, columns)
        && ToIndex(r[j].position, columns) == i
        && (r[j].kind == Circle <==> m[i] == EnemyCircle)
  {
  }

  /** Every enemy cell has an entry in the filtered enemy list. */
  lemma EnemiesComplete(m: seq<Cell>, columns: int, i: nat)
    requires columns > 0 && i < |m| && IsEnemyCell(m[i])
    ensures exists j ::
      0 <= j < |Compact(EnemyMarks(m, columns))| &&
      Compact(EnemyMarks(m, columns))[j].position == IndexToCoordinates(i, columns)
  {
    var marked := EnemyMarks(m, columns);
    var r := Compact(marked);
    assert marked[i].Some?;
    var j :| 0 <= j < |Kept(marked)| && Kept(marked)[j] == i;
    assert r[j].position == IndexToCoordinates(i, columns);
  }

  /**
   * buildEnemies: one entry per enemy cell, in index order, a `Circle` for an
   * `enemy_circle` cell and a `Square` otherwise.
   */
  function BuildEnemies(m: seq<Cell>, columns: int): (enemies: seq<EnemySpawn>)
    requires columns > 0
    ensures forall j :: 0 <= j < |enemies| ==>
      var i := ToIndex(enemies[j].position, columns);
      && 0 <= i < |m| && IsEnemyCell(m[i])
      && enemies[j].position == IndexToCoordinates(i, columns)
      && (enemies[j].kind == Circle <==> m[i] == EnemyCircle)
    ensures forall i :: 0 <= i < |m| && IsEnemyCell(m[i]) ==>
      exists j :: 0 <= j < |enemies| && enemies[j].position == IndexToCoordinates(i, columns)
    ensures forall j, k :: 0 <= j < k < |enemies| ==>
      ToIndex(enemies[j].position, columns) < ToIndex(enemies[k].position, columns)
  {
    EnemyEntries(m, columns);
    forall i | 0 <= i < |m| && IsEnemyCell(m[i])
      ensures exists j ::
        0 <= j < |Compact(EnemyMarks(m, columns))| &&
        Compact(EnemyMarks(m, columns))[j].position == IndexToCoordinates(i, columns)
    {
      EnemiesComplete(m, columns, i);
    }
    Compact(EnemyMarks(m, columns))
  }

  /** Grid cell `p` exists and holds no wall. */
  predicate OpenCell(g: seq<seq<nat>>, p: Vec2) {
    0 <= p.y < |g| && 0 <= p.x < |g[p.y]| && g[p.y][p.x] == 0
  }

  /** The coordinates of non-wall cells lie on open grid cells. */
  lemma TargetsOnOpenCells(m: seq<Cell>, columns: int, target: Cell)
    requires columns > 0 && !IsWall(target)
    ensures forall p :: p in CoordinatesOf(m, columns, target) ==> OpenCell(Grid(m, columns), p)
  {
    var r := CoordinatesOf(m, columns, target);
    forall p | p in r
      ensures OpenCell(Grid(m, columns), p)
    {
      var j :| 0 <= j < |r| && r[j] == p;
      var i := ToIndex(p, columns);
      assert 0 <= i < |m| && m[i] == target && p == IndexToCoordinates(i, columns);
      CellAtCoordinates(m, columns, i);
    }
  }

  /** Enemies stand on open grid cells. */
  lemma EnemiesOnOpenCells(m: seq<Cell>, columns: int)
    requires columns > 0
    ensures forall e :: e in BuildEnemies(m, columns) ==> OpenCell(Grid(m, columns), e.position)
  {
    var enemies := BuildEnemies(m, columns);
    forall e | e in enemies
      ensures OpenCell(Grid(m, columns), e.position)
    {
      var j :| 0 <= j < |enemies| && enemies[j] == e;
      var i := ToIndex(e.position, columns);
      assert 0 <= i < |m| && IsEnemyCell(m[i]) && e.position == IndexToCoordinates(i, columns);
      WallCells(m[i]);
      CellAtCoordinates(m, columns, i);
    }
  }

  /**
   * The lists agree with the grid: the player, every enemy, goal and hazard
   * stands on a cell of the grid that holds no wall.
   */
  lemma ObjectsOnOpenCells(m: seq<Cell>, columns: int)
    requires columns > 0
    ensures HasSpawn(m) ==> OpenCell(Grid(m, columns), BuildPlayer(m, columns).position)
    ensures forall e :: e in BuildEnemies(m, columns) ==> OpenCell(Grid(m, columns), e.position)
    ensures forall p :: p in BuildFinals(m, columns) ==> OpenCell(Grid(m, columns), p)
    ensures forall p :: p in BuildDeaths(m, columns) ==> OpenCell(Grid(m, columns), p)
  {
    if HasSpawn(m) {
      CellAtCoordinates(m, columns, ToIndex(BuildPlayer(m, columns).position, columns));
    }
    EnemiesOnOpenCells(m, columns);
    WallCells(End);
    WallCells(Death);
    TargetsOnOpenCells(m, columns, End);
    TargetsOnOpenCells(m, columns, Death);
  }
}
