/**
 * The values a map-editor cell can hold.  The editor keeps its map as a flat,
 * row-major list of these; an unset cell is falsy and is modelled as `Empty`.
 * Every other cell carries a string tag, and the map-conversion code tells the
 * kinds apart by that tag (a `"player_"` prefix marks a spawn cell).
 */
module Cells {

  datatype Cell =
    | Empty
    | WallRed | WallGreen | WallBlue | WallCyan | WallMagenta | WallYellow
    | End | Death
    | PlayerL | PlayerTL | PlayerT | PlayerTR | PlayerR | PlayerBR | PlayerB | PlayerBL
    | EnemyCircle | EnemySquare

  /** The string tag the editor stores for a non-empty cell. */
  function Tag(c: Cell): string
    requires c != Empty
  {
    match c
    case WallRed => "wall_red"
    case WallGreen => "wall_green"
    case WallBlue => "wall_blue"
    case WallCyan => "wall_cyan"
    case WallMagenta => "wall_magenta"
    case WallYellow => "wall_yellow"
    case End => "end"
    case Death => "death"
    case PlayerL => "player_l"
    case PlayerTL => "player_tl"
    case PlayerT => "player_t"
    case PlayerTR => "player_tr"
    case PlayerR => "player_r"
    case PlayerBR => "player_br"
    case PlayerB => "player_b"
    case PlayerBL => "player_bl"
    case EnemyCircle => "enemy_circle"
    case EnemySquare => "enemy_square"
  }

  /** `cell?.startsWith("player_")`: an empty cell is never a spawn. */
  predicate IsSpawn(c: Cell) {
    c != Empty && "player_" <= Tag(c)
  }

  /**
   * The model's wall test: the tag starts with `"wall_"`.  The converter
   * itself looks the tag up in its wall table; `WallCells` shows the two agree.
   */
  predicate IsWall(c: Cell) {
    c != Empty && "wall_" <= Tag(c)
  }

  /** The two enemy kinds the editor offers. */
  predicate IsEnemyCell(c: Cell) {
    c == EnemyCircle || c == EnemySquare
  }

  /** The `"player_"` prefix test selects exactly the eight spawn cells. */
  lemma SpawnCells(c: Cell)
    ensures IsSpawn(c) <==> c in {PlayerL, PlayerTL, PlayerT, PlayerTR, PlayerR, PlayerBR, PlayerB, PlayerBL}
  {
    if c != Empty && c !in {PlayerL, PlayerTL, PlayerT, PlayerTR, PlayerR, PlayerBR, PlayerB, PlayerBL} {
      assert Tag(c)[0] != 'p';
    }
  }

  /** The `"wall_"` prefix selects exactly the six wall colours. */
  lemma WallCells(c: Cell)
    ensures IsWall(c) <==> c in {WallRed, WallGreen, WallBlue, WallCyan, WallMagenta, WallYellow}
  {
    if c != Empty && c !in {WallRed, WallGreen, WallBlue, WallCyan, WallMagenta, WallYellow} {
      assert Tag(c)[0] != 'w';
    }
  }
}
