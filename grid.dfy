/**
 * The host game's dungeon as the navigation core sees it. A MapPiece is an
 * index into `Grid.cells`; reference equality of pieces is index equality.
 */
module Grid {
  import opened Wrappers

  type Piece = nat

  /** A wall on one side of a piece; `hasWarpCoverDoor` marks a level-transition door. */
  datatype Wall = Wall(placeDirection: int, blockDirection: bool, hasWarpCoverDoor: bool)

  /** The piece's node: the movement flag and the two directions used by blockers and word gates. */
  datatype Node = Node(blockPlayerMovement: bool, blockerDirection: int, blockDirection: int)

  datatype Enemy = Enemy(enemyName: Option<string>, isDead: bool)

  datatype Npc = Npc(npcName: Option<string>)

  datatype Container = Container(
    hasOpened: bool, activeInHierarchy: bool,
    canBeOpened: bool, canBeToppled: bool,
    containerBaseName: Option<string>)

  datatype Trap = Trap(isActive: bool)

  /**
   * One MapPiece. A null wall list or world-word list is the empty sequence;
   * a null world word is "" (both only ever reach `string.IsNullOrEmpty`).
   */
  datatype Cell = Cell(
    leftPiece: Option<Piece>, upPiece: Option<Piece>,
    rightPiece: Option<Piece>, downPiece: Option<Piece>,
    zPos: int, stepUpOverride: bool, alwaysBlockPlayer: bool,
    allWalls: seq<Wall>, myNode: Option<Node>,
    allWorldWords: seq<string>, hasSolvedWorldWord: bool,
    myMapEnemy: Option<Enemy>, myMapNPC: Option<Npc>,
    myCollectionContainer: Option<Container>, myWorldTrap: Option<Trap>,
    canShop: bool, canFish: bool, canPlayCards: bool)

  /** An entry of the game's active-blocker list; a null entry behaves as an inactive one. */
  datatype Blocker = Blocker(isActive: bool, myMapPiece: Option<Piece>)

  predicate InRange(p: Option<Piece>, n: nat) {
    p.Some? ==> p.value < n
  }

  /** The level: every piece, and the game manager's `allActiveBlockers` (empty when null). */
  datatype Grid = Grid(cells: seq<Cell>, blockers: seq<Blocker>) {

    /** Every neighbour link and blocker points at a piece of this level. */
    predicate Valid() {
      && (forall p | 0 <= p < |cells| ::
            && InRange(cells[p].leftPiece, |cells|) && InRange(cells[p].upPiece, |cells|)
            && InRange(cells[p].rightPiece, |cells|) && InRange(cells[p].downPiece, |cells|))
      && (forall k | 0 <= k < |blockers| :: InRange(blockers[k].myMapPiece, |cells|))
    }

    predicate Has(p: Piece) {
      p < |cells|
    }
  }

  /** The game manager as read in one frame: the level, the player's piece and facing. */
  datatype World = World(grid: Grid, myCurrentMapPiece: Option<Piece>, lookDirection: int) {
    predicate Valid() {
      grid.Valid() && InRange(myCurrentMapPiece, |grid.cells|)
    }
  }

  /** The piece holds an enemy that is not dead (`myMapEnemy != null && !isDead`). */
  predicate EnemyAlive(c: Cell) {
    c.myMapEnemy.Some? && !c.myMapEnemy.value.isDead
  }

  predicate LiveEnemy(g: Grid, p: Piece)
    requires g.Has(p)
  {
    EnemyAlive(g.cells[p])
  }

  /** The piece's container is unopened and still active in the scene. */
  predicate ContainerPresent(c: Cell) {
    c.myCollectionContainer.Some?
    && !c.myCollectionContainer.value.hasOpened
    && c.myCollectionContainer.value.activeInHierarchy
  }

  predicate TrapActive(c: Cell) {
    c.myWorldTrap.Some? && c.myWorldTrap.value.isActive
  }
}
