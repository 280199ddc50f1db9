/**
 * RoomScanner: the traversal rules (which edges the player may cross), the
 * exit list of a piece, and the short straight-line rays that collect points
 * of interest around the player.
 */
module RoomScanner {
  import opened Wrappers
  import opened Grid
  import opened Messages
  import opened Direction

  datatype Exit = Exit(absoluteDirection: int, isBlocked: bool)

  datatype PointOfInterest = PointOfInterest(
    typeKey: PoiKind, name: string, absoluteDirection: int, distance: int)

  /** How many pieces a ray looks ahead. */
  const MaxScanDepth := 3

  // ---------------------------------------------------------------------------
  // Traversal rules
  // ---------------------------------------------------------------------------

  /** A container is interactive when it can be opened or toppled; decorations have neither flag. */
  predicate IsInteractableContainer(container: Option<Container>) {
    container.Some? && (container.value.canBeOpened || container.value.canBeToppled)
  }

  /** The height rule: more than 4 z-levels apart, and neither piece overrides step-up. */
  predicate HeightBlocks(current: Cell, target: Cell) {
    && (target.zPos > current.zPos + 4 || target.zPos < current.zPos - 4)
    && !target.stepUpOverride && !current.stepUpOverride
  }

  /** The height rule depends only on the size of the drop, so it blocks both ways or neither; 4 levels pass. */
  lemma HeightRuleSymmetric(a: Cell, b: Cell)
    ensures HeightBlocks(a, b) == HeightBlocks(b, a)
    ensures b.zPos - a.zPos == 4 || a.zPos - b.zPos == 4 ==> !HeightBlocks(a, b)
    ensures HeightBlocks(a, b) <==>
              (a.zPos - b.zPos > 4 || b.zPos - a.zPos > 4) && !a.stepUpOverride && !b.stepUpOverride
  {
  }

  /** The early-return scan of a wall list: is some wall placed in `dir` and flagged blocking? */
  function WallsBlock(walls: seq<Wall>, dir: int): bool
    decreases |walls|
  {
    if walls == [] then false
    else if walls[0].placeDirection == dir && walls[0].blockDirection then true
    else WallsBlock(walls[1..], dir)
  }

  /** The wall scan finds a blocking wall in `dir` exactly when the list holds one. */
  lemma {:induction false} WallsBlockSpec(walls: seq<Wall>, dir: int)
    ensures WallsBlock(walls, dir) <==>
              exists k | 0 <= k < |walls| :: walls[k].placeDirection == dir && walls[k].blockDirection
    decreases |walls|
  {
    if walls != [] {
      WallsBlockSpec(walls[1..], dir);
      assert forall k | 1 <= k < |walls| :: walls[k] == walls[1..][k - 1];
      if WallsBlock(walls[1..], dir) {
        var k :| 0 <= k < |walls[1..]| && walls[1..][k].placeDirection == dir && walls[1..][k].blockDirection;
        assert walls[k + 1] == walls[1..][k];
      }
    }
  }

  /**
   * Does this entry of the active-blocker list stop the move? Only an active
   * blocker on a piece with a node counts. On the current piece it blocks the
   * move in the inverse of the node's blocker direction; on the target piece,
   * the move in the blocker direction itself.
   */
  predicate BlockerFires(g: Grid, b: Blocker, current: Piece, target: Piece, dir: int)
    requires g.Valid() && InRange(b.myMapPiece, |g.cells|)
  {
    && b.isActive && b.myMapPiece.Some? && g.cells[b.myMapPiece.value].myNode.Some?
    && var blockerDir := g.cells[b.myMapPiece.value].myNode.value.blockerDirection;
       || (b.myMapPiece.value == current && dir == InverseDirection(blockerDir))
       || (b.myMapPiece.value == target && dir == blockerDir)
  }

  /** The early-return scan of the active-blocker list from entry `from` on. */
  function BlockersBlock(g: Grid, from: nat, current: Piece, target: Piece, dir: int): bool
    requires g.Valid() && from <= |g.blockers|
    decreases |g.blockers| - from
  {
    if from == |g.blockers| then false
    else
      var b := g.blockers[from];
      if !b.isActive || b.myMapPiece.None? || g.cells[b.myMapPiece.value].myNode.None? then
        BlockersBlock(g, from + 1, current, target, dir)
      else
        var blockerDir := g.cells[b.myMapPiece.value].myNode.value.blockerDirection;
        if b.myMapPiece.value == current && dir == InverseDirection(blockerDir) then true
        else if b.myMapPiece.value == target && dir == blockerDir then true
        else BlockersBlock(g, from + 1, current, target, dir)
  }

  /** The blocker scan stops the move exactly when some remaining entry of the list fires. */
  lemma {:induction false} BlockersBlockSpec(g: Grid, from: nat, current: Piece, target: Piece, dir: int)
    requires g.Valid() && from <= |g.blockers|
    ensures BlockersBlock(g, from, current, target, dir) <==>
              exists k | from <= k < |g.blockers| :: BlockerFires(g, g.blockers[k], current, target, dir)
    decreases |g.blockers| - from
  {
    if from < |g.blockers| {
      BlockersBlockSpec(g, from + 1, current, target, dir);
    }
  }

  /** An unsolved word puzzle on the current piece closes its node's block direction. */
  predicate WorldWordBlocks(current: Cell, dir: int) {
    && |current.allWorldWords| > 0 && current.allWorldWords[0] != ""
    && !current.hasSolvedWorldWord
    && current.myNode.Some? && dir == current.myNode.value.blockDirection
  }

  /** The eight traversal rules. */
  datatype Rule =
    | MissingTarget | AlwaysBlocks | NodeBlocksMovement | HeightDelta
    | WallOnSource | WallOnTarget | ActiveBlocker | UnsolvedWorldWord

  /** The order in which the rules are tried. */
  const RuleOrder: seq<Rule> :=
    [MissingTarget, AlwaysBlocks, NodeBlocksMovement, HeightDelta,
     WallOnSource, WallOnTarget, ActiveBlocker, UnsolvedWorldWord]

  /** One rule, checked the way the source checks it: wall and blocker lists by early-return scans. */
  predicate RuleBlocks(g: Grid, rule: Rule, current: Piece, target: Option<Piece>, dir: int)
    requires g.Valid() && g.Has(current) && InRange(target, |g.cells|)
  {
    match rule
    case MissingTarget => target.None?
    case AlwaysBlocks => target.Some? && g.cells[target.value].alwaysBlockPlayer
    case NodeBlocksMovement =>
      target.Some? && g.cells[target.value].myNode.Some? && g.cells[target.value].myNode.value.blockPlayerMovement
    case HeightDelta => target.Some? && HeightBlocks(g.cells[current], g.cells[target.value])
    case WallOnSource => target.Some? && WallsBlock(g.cells[current].allWalls, dir)
    case WallOnTarget => target.Some? && WallsBlock(g.cells[target.value].allWalls, InverseDirection(dir))
    case ActiveBlocker => target.Some? && BlockersBlock(g, 0, current, target.value, dir)
    case UnsolvedWorldWord => target.Some? && WorldWordBlocks(g.cells[current], dir)
  }

  /** The short-circuit walk down the rule list from position `from`: the first rule that applies blocks. */
  predicate FirstRuleBlocks(g: Grid, current: Piece, target: Option<Piece>, dir: int, from: nat)
    requires g.Valid() && g.Has(current) && InRange(target, |g.cells|)
    decreases |RuleOrder| - from
  {
    if from >= |RuleOrder| then false
    else if RuleBlocks(g, RuleOrder[from], current, target, dir) then true
    else FirstRuleBlocks(g, current, target, dir, from + 1)
  }

  /**
   * Is the move from `current` to `target` in `absoluteDir` blocked? The rules
   * are tried in order and the first that applies decides; when none applies
   * the move is open.
   */
  function IsDirectionBlocked(g: Grid, current: Piece, target: Option<Piece>, absoluteDir: int): (blocked: bool)
    requires g.Valid() && g.Has(current) && InRange(target, |g.cells|)
    ensures target.None? ==> blocked
  {
    assert RuleOrder[0] == MissingTarget;
    FirstRuleBlocks(g, current, target, absoluteDir, 0)
  }

  /** Each rule stated on its own, declaratively: wall and blocker lists by "some entry". */
  predicate Fires(g: Grid, rule: Rule, current: Piece, target: Option<Piece>, dir: int)
    requires g.Valid() && g.Has(current) && InRange(target, |g.cells|)
  {
    match rule
    case MissingTarget => target.None?
    case AlwaysBlocks => target.Some? && g.cells[target.value].alwaysBlockPlayer
    case NodeBlocksMovement =>
      target.Some? && g.cells[target.value].myNode.Some? && g.cells[target.value].myNode.value.blockPlayerMovement
    case HeightDelta => target.Some? && HeightBlocks(g.cells[current], g.cells[target.value])
    case WallOnSource =>
      && target.Some?
      && exists k | 0 <= k < |g.cells[current].allWalls| ::
           g.cells[current].allWalls[k].placeDirection == dir && g.cells[current].allWalls[k].blockDirection
    case WallOnTarget =>
      && target.Some?
      && exists k | 0 <= k < |g.cells[target.value].allWalls| ::
           && g.cells[target.value].allWalls[k].placeDirection == InverseDirection(dir)
           && g.cells[target.value].allWalls[k].blockDirection
    case ActiveBlocker =>
      target.Some? && exists k | 0 <= k < |g.blockers| :: BlockerFires(g, g.blockers[k], current, target.value, dir)
    case UnsolvedWorldWord => target.Some? && WorldWordBlocks(g.cells[current], dir)
  }

  /** The scanning check of a rule agrees with its declarative statement. */
  lemma RuleBlocksIffFires(g: Grid, rule: Rule, current: Piece, target: Option<Piece>, dir: int)
    requires g.Valid() && g.Has(current) && InRange(target, |g.cells|)
    ensures RuleBlocks(g, rule, current, target, dir) <==> Fires(g, rule, current, target, dir)
  {
    if target.Some? {
      match rule
      case WallOnSource => WallsBlockSpec(g.cells[current].allWalls, dir);
      case WallOnTarget => WallsBlockSpec(g.cells[target.value].allWalls, InverseDirection(dir));
      case ActiveBlocker => BlockersBlockSpec(g, 0, current, target.value, dir);
      case _ =>
    }
  }

  lemma {:induction false} FirstRuleBlocksSpec(g: Grid, current: Piece, target: Option<Piece>, dir: int, from: nat)
    requires g.Valid() && g.Has(current) && InRange(target, |g.cells|)
    ensures FirstRuleBlocks(g, current, target, dir, from) <==>
              exists j | from <= j < |RuleOrder| :: RuleBlocks(g, RuleOrder[j], current, target, dir)
    decreases |RuleOrder| - from
  {
    if from < |RuleOrder| {
      FirstRuleBlocksSpec(g, current, target, dir, from + 1);
    }
  }

  /** The ordered, short-circuit rule list blocks exactly when one of the rules applies on its own. */
  lemma BlockedIffSomeRuleFires(g: Grid, current: Piece, target: Option<Piece>, dir: int)
    requires g.Valid() && g.Has(current) && InRange(target, |g.cells|)
    ensures IsDirectionBlocked(g, current, target, dir) <==> exists rule :: Fires(g, rule, current, target, dir)
  {
    FirstRuleBlocksSpec(g, current, target, dir, 0);
    forall rule ensures RuleBlocks(g, rule, current, target, dir) <==> Fires(g, rule, current, target, dir) {
      RuleBlocksIffFires(g, rule, current, target, dir);
    }
    forall rule ensures rule in RuleOrder {
      match rule
      case MissingTarget => assert RuleOrder[0] == rule;
      case AlwaysBlocks => assert RuleOrder[1] == rule;
      case NodeBlocksMovement => assert RuleOrder[2] == rule;
      case HeightDelta => assert RuleOrder[3] == rule;
      case WallOnSource => assert RuleOrder[4] == rule;
      case WallOnTarget => assert RuleOrder[5] == rule;
      case ActiveBlocker => assert RuleOrder[6] == rule;
      case UnsolvedWorldWord => assert RuleOrder[7] == rule;
    }
    if IsDirectionBlocked(g, current, target, dir) {
      var j :| 0 <= j < |RuleOrder| && RuleBlocks(g, RuleOrder[j], current, target, dir);
      assert Fires(g, RuleOrder[j], current, target, dir);
    } else {
      forall rule ensures !Fires(g, rule, current, target, dir) {
        var j :| 0 <= j < |RuleOrder| && RuleOrder[j] == rule;
      }
    }
  }

  // ---------------------------------------------------------------------------
  // Exits
  // ---------------------------------------------------------------------------

  /** `e` describes a real neighbour of `current` and whether the move there is blocked. */
  predicate IsExitOf(g: Grid, current: Option<Piece>, e: Exit)
    requires g.Valid() && InRange(current, |g.cells|)
  {
    && IsDir(e.absoluteDirection)
    && GetAdjacentPiece(g, current, e.absoluteDirection).Some?
    && e.isBlocked == IsDirectionBlocked(g, current.value, GetAdjacentPiece(g, current, e.absoluteDirection), e.absoluteDirection)
  }

  /** The exits of `p` in the directions below `n`, in direction order. */
  function ExitsBelow(g: Grid, p: Piece, n: nat): seq<Exit>
    requires g.Valid() && g.Has(p) && n <= 4
  {
    if n == 0 then []
    else
      var adjacent := GetAdjacentPiece(g, Some(p), n - 1);
      ExitsBelow(g, p, n - 1) + (if adjacent.Some? then [Exit(n - 1, IsDirectionBlocked(g, p, adjacent, n - 1))] else [])
  }

  /**
   * Each entry of the exit list of the directions below `n` describes an
   * existing neighbour in one of those directions, flagged with the
   * traversal rules' verdict.
   */
  lemma {:induction false} ExitsBelowSound(g: Grid, p: Piece, n: nat, k: nat)
    requires g.Valid() && g.Has(p) && n <= 4 && k < |ExitsBelow(g, p, n)|
    ensures IsExitOf(g, Some(p), ExitsBelow(g, p, n)[k]) && ExitsBelow(g, p, n)[k].absoluteDirection < n
  {
    var before := ExitsBelow(g, p, n - 1);
    if k < |before| {
      assert ExitsBelow(g, p, n)[k] == before[k];
      ExitsBelowSound(g, p, n - 1, k);
    }
  }

  /** The exit list holds at most one entry per direction, in strictly increasing direction order. */
  lemma {:induction false} ExitsBelowSorted(g: Grid, p: Piece, n: nat)
    requires g.Valid() && g.Has(p) && n <= 4
    ensures |ExitsBelow(g, p, n)| <= n
    ensures forall k, l | 0 <= k < l < |ExitsBelow(g, p, n)| ::
              ExitsBelow(g, p, n)[k].absoluteDirection < ExitsBelow(g, p, n)[l].absoluteDirection
  {
    if n > 0 {
      ExitsBelowSorted(g, p, n - 1);
      var before := ExitsBelow(g, p, n - 1);
      var exits := ExitsBelow(g, p, n);
      if |exits| > |before| {
        assert exits == before + [exits[|before|]];
        assert exits[|before|].absoluteDirection == n - 1;
        forall k | 0 <= k < |before| ensures exits[k].absoluteDirection < n - 1 {
          ExitsBelowSound(g, p, n - 1, k);
        }
      } else {
        assert exits == before;
      }
    }
  }

  /** Every existing neighbour in a direction below `n` has an entry in the exit list. */
  lemma {:induction false} ExitsBelowComplete(g: Grid, p: Piece, n: nat, d: int)
    requires g.Valid() && g.Has(p) && n <= 4 && 0 <= d < n && GetAdjacentPiece(g, Some(p), d).Some?
    ensures exists k | 0 <= k < |ExitsBelow(g, p, n)| :: ExitsBelow(g, p, n)[k].absoluteDirection == d
  {
    var before := ExitsBelow(g, p, n - 1);
    var exits := ExitsBelow(g, p, n);
    if d == n - 1 {
      assert exits[|before|].absoluteDirection == d;
    } else {
      ExitsBelowComplete(g, p, n - 1, d);
      var k :| 0 <= k < |before| && before[k].absoluteDirection == d;
      assert exits[k] == before[k];
    }
  }

  /**
   * One exit per existing neighbour, in direction order 0..3, each flagged
   * with the traversal rules' verdict; an absent neighbour gives no entry.
   */
  method ScanExits(g: Grid, currentPiece: Option<Piece>) returns (exits: seq<Exit>)
    requires g.Valid() && InRange(currentPiece, |g.cells|)
    ensures currentPiece.None? ==> exits == []
    ensures currentPiece.Some? ==> exits == ExitsBelow(g, currentPiece.value, 4)
  {
    exits := [];
    if currentPiece.None? {
      return;
    }
    var p := currentPiece.value;
    for dir := 0 to 4
      invariant exits == ExitsBelow(g, p, dir)
    {
      var adjacent := GetAdjacentPiece(g, currentPiece, dir);
      if adjacent.None? {
        continue;
      }
      var blocked := IsDirectionBlocked(g, p, adjacent, dir);
      exits := exits + [Exit(dir, blocked)];
    }
  }

  // ---------------------------------------------------------------------------
  // Points of interest
  // ---------------------------------------------------------------------------

  /** When DetectPOIs reports a point of interest of the given kind in a piece. */
  predicate Detected(c: Cell, kind: PoiKind) {
    match kind
    case PoiEnemy => EnemyAlive(c)
    case PoiNpc => c.myMapNPC.Some?
    case PoiContainer => ContainerPresent(c) && IsInteractableContainer(c.myCollectionContainer)
    case PoiScenery => ContainerPresent(c) && !IsInteractableContainer(c.myCollectionContainer)
    case PoiTrap => TrapActive(c)
    case PoiShop => c.canShop
    case PoiFishing => c.canFish
    case PoiCards => c.canPlayCards
    case PoiDoor => false
  }

  /** The order in which a piece's points of interest are reported. */
  const DetectOrder: seq<PoiKind> :=
    [PoiEnemy, PoiNpc, PoiContainer, PoiScenery, PoiTrap, PoiShop, PoiFishing, PoiCards]

  /** The name a point of interest of this kind carries: the entity's name, "" when missing or unnamed. */
  function PoiName(c: Cell, kind: PoiKind): string {
    match kind
    case PoiEnemy => if c.myMapEnemy.Some? then c.myMapEnemy.value.enemyName.GetOr("") else ""
    case PoiNpc => if c.myMapNPC.Some? then c.myMapNPC.value.npcName.GetOr("") else ""
    case PoiContainer | PoiScenery =>
      if c.myCollectionContainer.Some? then c.myCollectionContainer.value.containerBaseName.GetOr("") else ""
    case _ => ""
  }

  predicate Distinct<T(==)>(s: seq<T>) {
    forall i, j | 0 <= i < j < |s| :: s[i] != s[j]
  }

  /** The points of interest of `c` among `kinds`, in the order of `kinds`. */
  function DetectKinds(c: Cell, kinds: seq<PoiKind>, absoluteDir: int, distance: int): seq<PointOfInterest> {
    if kinds == [] then []
    else if Detected(c, kinds[0]) then
      [PointOfInterest(kinds[0], PoiName(c, kinds[0]), absoluteDir, distance)]
      + DetectKinds(c, kinds[1..], absoluteDir, distance)
    else DetectKinds(c, kinds[1..], absoluteDir, distance)
  }

  /**
   * Every point of interest DetectKinds reports carries the given direction
   * and distance, is of a listed kind that the piece shows, and bears the
   * entity's name.
   */
  lemma {:induction false} DetectKindsFields(c: Cell, kinds: seq<PoiKind>, absoluteDir: int, distance: int)
    ensures forall k | 0 <= k < |DetectKinds(c, kinds, absoluteDir, distance)| ::
              var poi := DetectKinds(c, kinds, absoluteDir, distance)[k];
              && poi.absoluteDirection == absoluteDir && poi.distance == distance
              && poi.typeKey in kinds && Detected(c, poi.typeKey) && poi.name == PoiName(c, poi.typeKey)
  {
    if kinds != [] {
      var tail := kinds[1..];
      var rest := DetectKinds(c, tail, absoluteDir, distance);
      DetectKindsFields(c, tail, absoluteDir, distance);
      assert forall kind :: kind in tail ==> kind in kinds;
      if Detected(c, kinds[0]) {
        var pois := DetectKinds(c, kinds, absoluteDir, distance);
        assert forall k | 1 <= k < |pois| :: pois[k] == rest[k - 1];
      }
    }
  }

  /** Every listed kind the piece shows is reported by DetectKinds. */
  lemma {:induction false} DetectKindsCovers(c: Cell, kinds: seq<PoiKind>, absoluteDir: int, distance: int, kind: PoiKind)
    requires kind in kinds && Detected(c, kind)
    ensures exists k | 0 <= k < |DetectKinds(c, kinds, absoluteDir, distance)| ::
              DetectKinds(c, kinds, absoluteDir, distance)[k].typeKey == kind
  {
    var tail := kinds[1..];
    var pois := DetectKinds(c, kinds, absoluteDir, distance);
    if kind == kinds[0] {
      assert pois[0].typeKey == kind;
    } else {
      assert kind in tail;
      DetectKindsCovers(c, tail, absoluteDir, distance, kind);
      var rest := DetectKinds(c, tail, absoluteDir, distance);
      var k :| 0 <= k < |rest| && rest[k].typeKey == kind;
      if Detected(c, kinds[0]) {
        assert pois[k + 1] == rest[k];
      } else {
        assert pois[k] == rest[k];
      }
    }
  }

  /** DetectKinds never reports a kind twice when the list names each kind once. */
  lemma {:induction false} DetectKindsDistinct(c: Cell, kinds: seq<PoiKind>, absoluteDir: int, distance: int)
    requires Distinct(kinds)
    ensures forall k, l | 0 <= k < l < |DetectKinds(c, kinds, absoluteDir, distance)| ::
              DetectKinds(c, kinds, absoluteDir, distance)[k].typeKey != DetectKinds(c, kinds, absoluteDir, distance)[l].typeKey
  {
    if kinds != [] {
      var tail := kinds[1..];
      var rest := DetectKinds(c, tail, absoluteDir, distance);
      assert Distinct(tail) by {
        forall i, j | 0 <= i < j < |tail| ensures tail[i] != tail[j] {
          assert tail[i] == kinds[i + 1] && tail[j] == kinds[j + 1];
        }
      }
      DetectKindsDistinct(c, tail, absoluteDir, distance);
      if Detected(c, kinds[0]) {
        var pois := DetectKinds(c, kinds, absoluteDir, distance);
        DetectKindsFields(c, tail, absoluteDir, distance);
        assert kinds[0] !in tail by {
          forall i | 0 <= i < |tail| ensures tail[i] != kinds[0] {
            assert tail[i] == kinds[i + 1];
          }
        }
        forall k, l | 0 <= k < l < |pois| ensures pois[k].typeKey != pois[l].typeKey {
          assert pois[l] == rest[l - 1];
          if k > 0 {
            assert pois[k] == rest[k - 1];
          }
        }
      }
    }
  }

  /** The points of interest of one piece, tagged with the ray's direction and step. */
  function DetectPOIs(c: Cell, absoluteDir: int, distance: int): seq<PointOfInterest> {
    DetectKinds(c, DetectOrder, absoluteDir, distance)
  }

  /** DetectPOIs reports each kind at most once, and exactly the kinds `Detected` names. */
  lemma DetectPOIsSpec(c: Cell, absoluteDir: int, distance: int)
    ensures forall k | 0 <= k < |DetectPOIs(c, absoluteDir, distance)| ::
              var poi := DetectPOIs(c, absoluteDir, distance)[k];
              poi.absoluteDirection == absoluteDir && poi.distance == distance && poi.name == PoiName(c, poi.typeKey)
    ensures forall kind :: Detected(c, kind) <==>
              exists k | 0 <= k < |DetectPOIs(c, absoluteDir, distance)| :: DetectPOIs(c, absoluteDir, distance)[k].typeKey == kind
    ensures forall k, l | 0 <= k < l < |DetectPOIs(c, absoluteDir, distance)| ::
              DetectPOIs(c, absoluteDir, distance)[k].typeKey != DetectPOIs(c, absoluteDir, distance)[l].typeKey
  {
    var pois := DetectPOIs(c, absoluteDir, distance);
    DetectKindsFields(c, DetectOrder, absoluteDir, distance);
    assert forall kind :: kind != PoiDoor ==> kind in DetectOrder;
    forall kind | Detected(c, kind)
      ensures exists k | 0 <= k < |pois| :: pois[k].typeKey == kind
    {
      DetectKindsCovers(c, DetectOrder, absoluteDir, distance, kind);
    }
    DetectKindsDistinct(c, DetectOrder, absoluteDir, distance);
    assert !exists k | 0 <= k < |pois| :: pois[k].typeKey == PoiDoor;
  }

  /**
   * What one ray reports from step `step` on, `current` being the piece the
   * ray stands on. A ray stops at a missing neighbour, a blocked edge or an
   * always-blocking piece (reporting nothing there), and stops after
   * reporting a piece that holds a live enemy.
   */
  function Ray(g: Grid, current: Piece, dir: int, step: nat): seq<PointOfInterest>
    requires g.Valid() && g.Has(current)
    decreases MaxScanDepth + 1 - step
  {
    if step > MaxScanDepth then []
    else
      match GetAdjacentPiece(g, Some(current), dir)
      case None => []
      case Some(next) =>
        if IsDirectionBlocked(g, current, Some(next), dir) || g.cells[next].alwaysBlockPlayer then []
        else DetectPOIs(g.cells[next], dir, step) + (if LiveEnemy(g, next) then [] else Ray(g, next, dir, step + 1))
  }

  /**
   * The first `n` steps from `p` in `dir` are open to a ray: each has a
   * neighbour, is not blocked, does not enter an always-blocking piece, and
   * every piece before the last holds no live enemy.
   */
  predicate OpenRay(g: Grid, p: Piece, dir: int, n: nat)
    requires g.Valid() && g.Has(p)
    decreases n
  {
    n == 0 ||
    match GetAdjacentPiece(g, Some(p), dir)
    case None => false
    case Some(next) =>
      && !IsDirectionBlocked(g, p, Some(next), dir)
      && !g.cells[next].alwaysBlockPlayer
      && (n == 1 || (!LiveEnemy(g, next) && OpenRay(g, next, dir, n - 1)))
  }

  /**
   * Every point of interest on a ray lies within the scan depth, in the ray's
   * direction, at a piece reached along an open ray, and is one of that
   * piece's own points of interest: nothing is reported past an obstacle or
   * past a live enemy.
   */
  lemma {:induction false} RayPoiSound(g: Grid, p: Piece, dir: int, step: nat, k: nat)
    requires g.Valid() && g.Has(p) && 1 <= step
    requires k < |Ray(g, p, dir, step)|
    ensures var poi := Ray(g, p, dir, step)[k];
      && step <= poi.distance <= MaxScanDepth
      && poi.absoluteDirection == dir
      && OpenRay(g, p, dir, poi.distance - step + 1)
      && Walk(g, p, dir, poi.distance - step + 1).Some?
      && poi in DetectPOIs(g.cells[Walk(g, p, dir, poi.distance - step + 1).value], dir, poi.distance)
    decreases MaxScanDepth + 1 - step
  {
    var next := GetAdjacentPiece(g, Some(p), dir).value;
    var here := DetectPOIs(g.cells[next], dir, step);
    var poi := Ray(g, p, dir, step)[k];
    if k < |here| {
      assert poi == here[k];
      DetectPOIsSpec(g.cells[next], dir, step);
      assert Walk(g, p, dir, 1) == Some(next);
    } else {
      var rest := Ray(g, next, dir, step + 1);
      assert poi == rest[k - |here|];
      RayPoiSound(g, next, dir, step + 1, k - |here|);
    }
  }

  /**
   * Conversely, a piece reached along an open ray within the scan depth has
   * all of its points of interest reported by the ray.
   */
  lemma {:induction false} RayPoiComplete(g: Grid, p: Piece, dir: int, step: nat, n: nat)
    requires g.Valid() && g.Has(p) && 1 <= step && 1 <= n && step + n - 1 <= MaxScanDepth
    requires OpenRay(g, p, dir, n)
    ensures Walk(g, p, dir, n).Some?
    ensures forall poi | poi in DetectPOIs(g.cells[Walk(g, p, dir, n).value], dir, step + n - 1) ::
              poi in Ray(g, p, dir, step)
    decreases n
  {
    var next := GetAdjacentPiece(g, Some(p), dir).value;
    if n > 1 {
      RayPoiComplete(g, next, dir, step + 1, n - 1);
    }
  }

  /** ScanLine: append what one ray reports to the caller's list. */
  method ScanLine(g: Grid, startPiece: Piece, absoluteDir: int, pois: seq<PointOfInterest>)
    returns (result: seq<PointOfInterest>)
    requires g.Valid() && g.Has(startPiece)
    ensures result == pois + Ray(g, startPiece, absoluteDir, 1)
  {
    result := pois;
    var current := startPiece;
    for step := 1 to MaxScanDepth + 1
      invariant g.Has(current)
      invariant result + Ray(g, current, absoluteDir, step) == pois + Ray(g, startPiece, absoluteDir, 1)
    {
      var next := GetAdjacentPiece(g, Some(current), absoluteDir);
      if next.None? {
        break;
      }
      if IsDirectionBlocked(g, current, next, absoluteDir) {
        break;
      }
      if g.cells[next.value].alwaysBlockPlayer {
        break;
      }
      result := result + DetectPOIs(g.cells[next.value], absoluteDir, step);
      if LiveEnemy(g, next.value) {
        break;
      }
      current := next.value;
    }
  }

  /** The four rays from a piece, west, north, east and south in that order. */
  function NearbyPOIs(g: Grid, p: Piece): seq<PointOfInterest>
    requires g.Valid() && g.Has(p)
  {
    Ray(g, p, 0, 1) + Ray(g, p, 1, 1) + Ray(g, p, 2, 1) + Ray(g, p, 3, 1)
  }

  /** A point of interest on one ray lies 1 to 3 steps away along an open ray, and is never a door. */
  lemma RayMemberSound(g: Grid, p: Piece, dir: int, poi: PointOfInterest)
    requires g.Valid() && g.Has(p) && poi in Ray(g, p, dir, 1)
    ensures 1 <= poi.distance <= MaxScanDepth && poi.absoluteDirection == dir
    ensures OpenRay(g, p, dir, poi.distance)
    ensures poi.typeKey != PoiDoor
  {
    var i :| 0 <= i < |Ray(g, p, dir, 1)| && Ray(g, p, dir, 1)[i] == poi;
    RayPoiSound(g, p, dir, 1, i);
    var q := Walk(g, p, dir, poi.distance).value;
    var found := DetectPOIs(g.cells[q], dir, poi.distance);
    var j :| 0 <= j < |found| && found[j] == poi;
    DetectPOIsSpec(g.cells[q], dir, poi.distance);
    assert found[j].typeKey == poi.typeKey;
    assert Detected(g.cells[q], poi.typeKey);
  }

  /** Every nearby point of interest is 1 to 3 steps away along an open ray, in a genuine direction, and never a door. */
  lemma NearbyPoiSound(g: Grid, p: Piece, poi: PointOfInterest)
    requires g.Valid() && g.Has(p) && poi in NearbyPOIs(g, p)
    ensures 1 <= poi.distance <= MaxScanDepth && IsDir(poi.absoluteDirection)
    ensures OpenRay(g, p, poi.absoluteDirection, poi.distance)
    ensures poi.typeKey != PoiDoor
  {
    if poi in Ray(g, p, 0, 1) {
      RayMemberSound(g, p, 0, poi);
    } else if poi in Ray(g, p, 1, 1) {
      RayMemberSound(g, p, 1, poi);
    } else if poi in Ray(g, p, 2, 1) {
      RayMemberSound(g, p, 2, poi);
    } else {
      RayMemberSound(g, p, 3, poi);
    }
  }

  /** ScanNearbyPOIs: the four rays' reports, or nothing for a null piece. */
  method ScanNearbyPOIs(g: Grid, currentPiece: Option<Piece>) returns (pois: seq<PointOfInterest>)
    requires g.Valid() && InRange(currentPiece, |g.cells|)
    ensures currentPiece.None? ==> pois == []
    ensures currentPiece.Some? ==> pois == NearbyPOIs(g, currentPiece.value)
  {
    pois := [];
    if currentPiece.None? {
      return;
    }
    var p := currentPiece.value;
    for dir := 0 to 4
      invariant dir == 0 ==> pois == []
      invariant dir == 1 ==> pois == Ray(g, p, 0, 1)
      invariant dir == 2 ==> pois == Ray(g, p, 0, 1) + Ray(g, p, 1, 1)
      invariant dir == 3 ==> pois == Ray(g, p, 0, 1) + Ray(g, p, 1, 1) + Ray(g, p, 2, 1)
      invariant dir == 4 ==> pois == NearbyPOIs(g, p)
    {
      pois := ScanLine(g, p, dir, pois);
    }
  }

  // ---------------------------------------------------------------------------
  // The player's own piece
  // ---------------------------------------------------------------------------

  /** The order in which ScanCurrentRoom lists the contents of the player's piece. */
  const RoomOrder: seq<Key> :=
    [RoomEnemy, RoomNpc, RoomContainer, RoomScenery, RoomTrap, RoomFishing, RoomCards, RoomShop]

  /** When ScanCurrentRoom mentions a room tag; an enemy or NPC without a name is not mentioned. */
  predicate RoomTagged(c: Cell, k: Key) {
    match k
    case RoomEnemy => EnemyAlive(c) && PoiName(c, PoiEnemy) != ""
    case RoomNpc => c.myMapNPC.Some? && PoiName(c, PoiNpc) != ""
    case RoomContainer => ContainerPresent(c) && IsInteractableContainer(c.myCollectionContainer)
    case RoomScenery => ContainerPresent(c) && !IsInteractableContainer(c.myCollectionContainer)
    case RoomTrap => TrapActive(c)
    case RoomFishing => c.canFish
    case RoomCards => c.canPlayCards
    case RoomShop => c.canShop
    case _ => false
  }

  /** The message of a room tag: enemies, NPCs and scenery carry their name. */
  function RoomTag(c: Cell, k: Key): Msg {
    match k
    case RoomEnemy => Msg(RoomEnemy, [Text(PoiName(c, PoiEnemy))])
    case RoomNpc => Msg(RoomNpc, [Text(PoiName(c, PoiNpc))])
    case RoomScenery => Msg(RoomScenery, [Text(PoiName(c, PoiScenery))])
    case _ => Plain(k)
  }

  /** The room tags of `c` among `keys`, in the order of `keys`. */
  function RoomTags(c: Cell, keys: seq<Key>): seq<Msg> {
    if keys == [] then []
    else if RoomTagged(c, keys[0]) then [RoomTag(c, keys[0])] + RoomTags(c, keys[1..])
    else RoomTags(c, keys[1..])
  }

  /** Every tag RoomTags reports is the message of a listed key that is tagged. */
  lemma {:induction false} RoomTagsFields(c: Cell, keys: seq<Key>)
    ensures forall i | 0 <= i < |RoomTags(c, keys)| ::
              && RoomTags(c, keys)[i] == RoomTag(c, RoomTags(c, keys)[i].key)
              && RoomTags(c, keys)[i].key in keys && RoomTagged(c, RoomTags(c, keys)[i].key)
  {
    if keys != [] {
      var tail := keys[1..];
      var rest := RoomTags(c, tail);
      RoomTagsFields(c, tail);
      assert forall k :: k in tail ==> k in keys;
      if RoomTagged(c, keys[0]) {
        var contents := RoomTags(c, keys);
        assert forall i | 1 <= i < |contents| :: contents[i] == rest[i - 1];
      }
    }
  }

  /** A listed key that is tagged is reported by RoomTags. */
  lemma {:induction false} RoomTagsCovers(c: Cell, keys: seq<Key>, k: Key)
    requires k in keys && RoomTagged(c, k)
    ensures exists i | 0 <= i < |RoomTags(c, keys)| :: RoomTags(c, keys)[i].key == k
  {
    var tail := keys[1..];
    var contents := RoomTags(c, keys);
    if k == keys[0] {
      assert contents[0].key == k;
    } else {
      assert k in tail;
      RoomTagsCovers(c, tail, k);
      var rest := RoomTags(c, tail);
      var i :| 0 <= i < |rest| && rest[i].key == k;
      if RoomTagged(c, keys[0]) {
        assert contents[i + 1] == rest[i];
      } else {
        assert contents[i] == rest[i];
      }
    }
  }

  /** RoomTags never mentions a key twice when the list names each key once. */
  lemma {:induction false} RoomTagsDistinct(c: Cell, keys: seq<Key>)
    requires Distinct(keys)
    ensures forall i, j | 0 <= i < j < |RoomTags(c, keys)| :: RoomTags(c, keys)[i].key != RoomTags(c, keys)[j].key
  {
    if keys != [] {
      var tail := keys[1..];
      var rest := RoomTags(c, tail);
      assert Distinct(tail) by {
        forall i, j | 0 <= i < j < |tail| ensures tail[i] != tail[j] {
          assert tail[i] == keys[i + 1] && tail[j] == keys[j + 1];
        }
      }
      RoomTagsDistinct(c, tail);
      if RoomTagged(c, keys[0]) {
        var contents := RoomTags(c, keys);
        RoomTagsFields(c, tail);
        assert keys[0] !in tail by {
          forall i | 0 <= i < |tail| ensures tail[i] != keys[0] {
            assert tail[i] == keys[i + 1];
          }
        }
        forall i, j | 0 <= i < j < |contents| ensures contents[i].key != contents[j].key {
          assert contents[j] == rest[j - 1];
          if i > 0 {
            assert contents[i] == rest[i - 1];
          }
        }
      }
    }
  }

  /** The contents of the player's piece as room tags, each at most once, exactly those `RoomTagged` names. */
  function ScanCurrentRoom(g: Grid, currentPiece: Option<Piece>): (contents: seq<Msg>)
    requires g.Valid() && InRange(currentPiece, |g.cells|)
    ensures currentPiece.None? ==> contents == []
    ensures currentPiece.Some? ==>
              forall k :: RoomTagged(g.cells[currentPiece.value], k) <==>
                exists i | 0 <= i < |contents| :: contents[i].key == k
    ensures forall i, j | 0 <= i < j < |contents| :: contents[i].key != contents[j].key
  {
    if currentPiece.None? then []
    else
      var c := g.cells[currentPiece.value];
      var contents := RoomTags(c, RoomOrder);
      assert forall k :: RoomTagged(c, k) <==> exists i | 0 <= i < |contents| :: contents[i].key == k by {
        assert forall k :: RoomTagged(c, k) ==> k in RoomOrder;
        RoomTagsFields(c, RoomOrder);
        forall k | RoomTagged(c, k) ensures exists i | 0 <= i < |contents| :: contents[i].key == k {
          RoomTagsCovers(c, RoomOrder, k);
        }
      }
      RoomTagsDistinct(c, RoomOrder);
      contents
  }
}
