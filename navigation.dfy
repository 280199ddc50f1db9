/**
 * Category navigation (NavigationHandler): the items around the player are
 * sorted into six categories, cached per piece and facing; the player
 * cycles through categories and items with a wrap-around index and asks
 * for turn-by-turn directions to the selected item, found by a breadth-first
 * search of at most ten levels.
 */
module Navigation {
  import opened Wrappers
  import opened Grid
  import opened Messages
  import opened Direction
  import opened RoomScanner
  import opened Routes
  import opened Pathfinder

  datatype NavCategory = Exits | NPCs | Enemies | Interactables | Scenery | POIs

  /** The categories in cycling order. */
  const AllCategories: seq<NavCategory> := [Exits, NPCs, Enemies, Interactables, Scenery, POIs]

  /** How many levels the directions search explores. */
  const MaxPathfindDepth := 10

  /**
   * A navigable item: its display name, its type key, the absolute direction
   * it lies in (-1 for the player's own piece), how many steps away it is
   * (0 for the player's own piece) and the piece to walk to.
   */
  datatype NavItem = Item(name: Arg, typeKey: Key, absoluteDirection: int, distance: int, piece: Option<Piece>)

  /** One addition to the cache: `item` is appended to the list of `category`. */
  datatype Filing = Filing(category: NavCategory, item: NavItem)

  type Cache = map<NavCategory, seq<NavItem>>

  // ---------------------------------------------------------------------------
  // Indices and categories
  // ---------------------------------------------------------------------------

  /**
   * `((index % count) + count) % count` with C#'s truncating `%`, or 0 for
   * an empty range: the non-negative remainder of `index` by `count`.
   */
  function Wrap(index: int, count: int): (r: int)
    ensures count <= 0 ==> r == 0
    ensures count > 0 ==> 0 <= r < count && r == index % count
  {
    if count <= 0 then 0
    else
      WrapIsRemainder(index, count);
      CsRem(CsRem(index, count) + count, count)
  }

  /** The Euclidean remainder is the only remainder in `[0, b)`. */
  lemma ModUnique(a: int, b: int, q: int, r: int)
    requires b > 0 && 0 <= r < b && a == q * b + r
    ensures a % b == r
  {
    var q0 := a / b;
    var r0 := a % b;
    assert a == q0 * b + r0 && 0 <= r0 < b;
    assert (q - q0) * b == r0 - r;
    if q - q0 >= 1 {
      MulAtLeast(q - q0, b);
    } else if q - q0 <= -1 {
      MulAtLeast(q0 - q, b);
    }
  }

  lemma MulAtLeast(k: int, b: int)
    requires k >= 1 && b > 0
    ensures k * b >= b
  {
    assert k * b == (k - 1) * b + b;
    assert (k - 1) * b >= 0;
  }

  lemma WrapIsRemainder(index: int, count: int)
    requires count > 0
    ensures CsRem(CsRem(index, count) + count, count) == index % count
  {
    if index >= 0 {
      var m := index % count;
      ModUnique(m + count, count, 1, m);
    } else {
      var m := (-index) % count;
      var q := (-index) / count;
      assert -index == q * count + m;
      if m == 0 {
        ModUnique(count, count, 1, 0);
        ModUnique(index, count, -q, 0);
      } else {
        ModUnique(count - m, count, 0, count - m);
        ModUnique(index, count, -q - 1, count - m);
      }
    }
  }

  /** Stepping back from the first item lands on the last one, and stepping on from the last lands on the first. */
  lemma WrapEnds(n: int)
    requires n > 0
    ensures Wrap(-1, n) == n - 1 && Wrap(n, n) == 0
  {
    ModUnique(-1, n, -1, n - 1);
    ModUnique(n, n, 1, 0);
  }

  /** One step forward and one step back (or back, then forward) return to the same index. */
  lemma WrapBackAndForth(i: int, n: int)
    requires 0 <= i < n
    ensures Wrap(Wrap(i + 1, n) - 1, n) == i
    ensures Wrap(Wrap(i - 1, n) + 1, n) == i
  {
    ModUnique(i, n, 0, i);
    if i + 1 == n {
      WrapEnds(n);
    } else {
      ModUnique(i + 1, n, 0, i + 1);
    }
    if i == 0 {
      WrapEnds(n);
    } else {
      ModUnique(i - 1, n, 0, i - 1);
    }
  }

  /**
   * The category index after one frame's keys, from `index`: Ctrl+PageUp
   * steps back; otherwise Ctrl+PageDown steps on; both wrap over the six
   * categories, and every other combination leaves the index alone.
   */
  function KeyCategory(index: int, ctrl: bool, pageUp: bool, pageDown: bool): int {
    if ctrl && pageUp then Wrap(index - 1, |AllCategories|)
    else if ctrl && pageDown then Wrap(index + 1, |AllCategories|)
    else index
  }

  /** An index that each key combination moves as KeyCategory says is KeyCategory's result. */
  lemma KeyCategoryCases(index: int, ctrl: bool, pageUp: bool, pageDown: bool, r: int)
    requires ctrl && pageUp ==> r == Wrap(index - 1, |AllCategories|)
    requires ctrl && !pageUp && pageDown ==> r == Wrap(index + 1, |AllCategories|)
    requires !(ctrl && (pageUp || pageDown)) ==> r == index
    ensures r == KeyCategory(index, ctrl, pageUp, pageDown)
  {
  }

  /** From the first category (where a move leaves the selection), Ctrl+PageUp reaches the last and Ctrl+PageDown the second. */
  lemma KeyCategoryFromFirst(pageDown: bool)
    ensures KeyCategory(0, true, true, pageDown) == |AllCategories| - 1
    ensures KeyCategory(0, true, false, true) == 1
  {
    WrapEnds(|AllCategories|);
    ModUnique(1, |AllCategories|, 0, 1);
  }

  /**
   * ClassifyPOI: the category a point of interest of this kind belongs to;
   * kinds outside the known list (a door) fall to the catch-all POIs.
   */
  function ClassifyPOI(kind: PoiKind): (c: NavCategory)
    ensures c != Exits
    ensures c == Enemies <==> kind == PoiEnemy
    ensures c == NPCs <==> kind == PoiNpc
    ensures c == Scenery <==> kind == PoiScenery
    ensures c == POIs <==> kind == PoiDoor
  {
    match kind
    case PoiEnemy => Enemies
    case PoiNpc => NPCs
    case PoiScenery => Scenery
    case PoiContainer | PoiTrap | PoiShop | PoiFishing | PoiCards => Interactables
    case PoiDoor => POIs
  }

  /** The spoken name of a category. */
  function CategoryName(c: NavCategory): Key {
    match c
    case Exits => NavCatExits
    case NPCs => NavCatNpcs
    case Enemies => NavCatEnemies
    case Interactables => NavCatInteractables
    case Scenery => NavCatScenery
    case POIs => NavCatPois
  }

  /** Each category is announced under a word of its own. */
  lemma CategoryNamesDistinct(a: NavCategory, b: NavCategory)
    requires CategoryName(a) == CategoryName(b)
    ensures a == b
  {
    match a
    case Exits =>
    case NPCs =>
    case Enemies =>
    case Interactables =>
    case Scenery =>
    case POIs =>
  }

  /**
   * FormatNavItem: "<name> here" for the player's own piece, otherwise
   * "<name>, <distance> <relative direction>" from the facing `look`.
   */
  function FormatNavItem(item: NavItem, look: int): Msg {
    if item.distance == 0 then Msg(NavItemHere, [item.name])
    else Msg(NavItem, [item.name, Num(item.distance),
                       Sub(Plain(GetRelativeName(AbsoluteToRelative(item.absoluteDirection, look))))])
  }

  /** "<category>: no items". */
  function NoItemsAnnouncement(cat: NavCategory): seq<Msg> {
    [Msg(NavCategoryAnnounce, [Sub(Plain(CategoryName(cat))), Sub(Plain(NavNoItems)), Text("")])]
  }

  /** "<category> <index + 1> of <count>. <item>". */
  function PositionAnnouncement(cat: NavCategory, items: seq<NavItem>, index: int, look: int): seq<Msg>
    requires 0 <= index < |items|
  {
    [Msg(NavCategoryAnnounce, [Sub(Plain(CategoryName(cat))), Num(index + 1), Num(|items|)]),
     FormatNavItem(items[index], look)]
  }

  /** What switching to a category says: "no items", or the first item with its position. */
  function CategoryAnnouncement(cat: NavCategory, items: seq<NavItem>, look: int): seq<Msg> {
    if items == [] then NoItemsAnnouncement(cat) else PositionAnnouncement(cat, items, 0, look)
  }

  // ---------------------------------------------------------------------------
  // Walking and describing
  // ---------------------------------------------------------------------------

  /**
   * GetPieceAtDistance: the piece `distance` steps from `start` in
   * `absoluteDir`, or null as soon as a step has no neighbour; no step is
   * taken for a distance of 0 or less.
   */
  method GetPieceAtDistance(g: Grid, start: Piece, absoluteDir: int, distance: int) returns (r: Option<Piece>)
    requires g.Valid() && g.Has(start)
    ensures distance <= 0 ==> r == Some(start)
    ensures distance > 0 ==> r == Walk(g, start, absoluteDir, distance)
  {
    var current := start;
    var i := 0;
    while i < distance
      invariant g.Has(current) && 0 <= i && (distance > 0 ==> i <= distance)
      invariant distance > 0 ==> Walk(g, start, absoluteDir, distance) == Walk(g, current, absoluteDir, distance - i)
      invariant distance <= 0 ==> current == start
    {
      var next := GetAdjacentPiece(g, Some(current), absoluteDir);
      if next.None? {
        return None;
      }
      current := next.value;
      i := i + 1;
    }
    return Some(current);
  }

  /** The first `n` steps of an open ray all have a neighbour, so walking them finds a piece. */
  lemma {:induction false} OpenRayWalks(g: Grid, p: Piece, dir: int, n: nat)
    requires g.Valid() && g.Has(p) && OpenRay(g, p, dir, n)
    ensures Walk(g, p, dir, n).Some?
    decreases n
  {
    if n > 0 {
      var next := GetAdjacentPiece(g, Some(p), dir).value;
      if n > 1 {
        OpenRayWalks(g, next, dir, n - 1);
      }
    }
  }

  /**
   * FormatRelativeDirections: "here" for an empty path; otherwise, for each
   * run of equal moves, a turn when the run is not straight ahead of the
   * current facing, then "go n". The parts are what RouteSteps says, in the
   * navigation words.
   */
  method FormatRelativeDirections(absolutePath: seq<int>, lookDir: int) returns (parts: seq<Msg>)
    ensures absolutePath == [] ==> parts == [Plain(NavHere)]
    ensures absolutePath != [] ==> parts == NavMsgs(RouteSteps(absolutePath, lookDir))
  {
    if absolutePath == [] {
      return [Plain(NavHere)];
    }
    var p := absolutePath;
    parts := [];
    var currentFacing := lookDir;
    var i := 0;
    ghost var done: seq<Step> := [];
    while i < |p|
      invariant 0 <= i <= |p|
      invariant done + RouteSteps(p[i..], currentFacing) == RouteSteps(p, lookDir)
      invariant parts == NavMsgs(done)
      decreases |p| - i
    {
      var moveDir := p[i];
      var relDir := AbsoluteToRelative(moveDir, currentFacing);
      ghost var turn := TurnTo(moveDir, currentFacing);
      ghost var facing0 := currentFacing;
      var i0 := i;
      ghost var done0 := done;
      if relDir == 1 {
        NavMsgsSnoc(done, Turn(relDir));
        parts := parts + [Plain(NavTurnRight)];
        done := done + [Turn(relDir)];
        currentFacing := moveDir;
      } else if relDir == 3 {
        NavMsgsSnoc(done, Turn(relDir));
        parts := parts + [Plain(NavTurnLeft)];
        done := done + [Turn(relDir)];
        currentFacing := moveDir;
      } else if relDir == 2 {
        NavMsgsSnoc(done, Turn(relDir));
        parts := parts + [Plain(NavTurnAround)];
        done := done + [Turn(relDir)];
        currentFacing := moveDir;
      }
      assert done == done0 + turn;

      i := SkipRun(p, i);
      var count := i - i0;
      RouteProgress(p, lookDir, done0, done, i0, i, facing0, moveDir, count);
      NavMsgsSnoc(done, Go(moveDir, count));
      parts := parts + [Msg(NavGoAhead, [Num(count)])];
      done := done + [Go(moveDir, count)];
      currentFacing := moveDir;
    }
    assert done == RouteSteps(p, lookDir) by {
      assert p[i..] == [];
    }
  }

  /**
   * What BuildDirections answers for a walk from `from` to `target`: "here"
   * when they coincide; otherwise, when an open route of at most 10 moves
   * exists (live enemies on the way are not avoided), the instructions for a
   * shortest such route, and "unreachable" when none does.
   */
  ghost predicate DirectionsTo(g: Grid, from: Piece, look: int, target: Piece, directions: seq<Msg>)
    requires g.Valid() && g.Has(from)
  {
    if from == target then directions == [Plain(NavHere)]
    else if ReachableWithin(g, from, target, MaxPathfindDepth, false) then
      exists path | Shortest(g, from, path, target, false) ::
        1 <= |path| <= MaxPathfindDepth && directions == NavMsgs(RouteSteps(path, look))
    else directions == [Plain(NavUnreachable)]
  }

  /**
   * BuildDirections: "here" when the player stands on the target; otherwise
   * a level-by-level search of at most ten levels that does not skip pieces
   * holding live enemies, answered with "unreachable" or with the found
   * route's turn-by-turn instructions from the player's facing.
   */
  method BuildDirections(g: Grid, from: Piece, lookDir: int, target: Piece) returns (directions: seq<Msg>)
    requires g.Valid() && g.Has(from) && g.Has(target)
    ensures DirectionsTo(g, from, lookDir, target, directions)
    ensures directions != []
  {
    if from == target {
      return [Plain(NavHere)];
    }
    var path := LevelSearch(g, from, target, MaxPathfindDepth, false);
    if path.None? {
      return [Plain(NavUnreachable)];
    }
    directions := FormatRelativeDirections(path.value, lookDir);
    assert Shortest(g, from, path.value, target, false) && 1 <= |path.value| <= MaxPathfindDepth;
  }

  /**
   * Wherever FindPath finds a route of at most ten moves, the directions
   * are not "unreachable": they describe a shortest open route that is no
   * longer than FindPath's.
   */
  lemma FindPathRouteBoundsDirections(g: Grid, from: Piece, look: int, target: Piece, path: seq<int>,
                                      directions: seq<Msg>)
    requires g.Valid() && g.Has(from) && from != target
    requires RouteFrom(g, from, path, target, true) && |path| <= MaxPathfindDepth
    requires DirectionsTo(g, from, look, target, directions)
    ensures exists p | Shortest(g, from, p, target, false) ::
              |p| <= |path| && directions == NavMsgs(RouteSteps(p, look))
  {
    AvoidingRouteIsRoute(g, from, path, target);
    assert ReachableWithin(g, from, target, MaxPathfindDepth, false);
  }

  // ---------------------------------------------------------------------------
  // The cache as a list of additions
  // ---------------------------------------------------------------------------

  /** A list for every category, all empty: the cache right after its lists are created. */
  function EmptyCache(): Cache
  {
    map[Exits := [], NPCs := [], Enemies := [], Interactables := [], Scenery := [], POIs := []]
  }

  /** Every category has a list. */
  predicate Complete(cache: Cache) {
    forall c: NavCategory :: c in cache
  }

  /** Every category has an empty list in the fresh cache. */
  lemma EmptyCacheComplete()
    ensures Complete(EmptyCache())
    ensures forall c: NavCategory :: EmptyCache()[c] == []
  {
    forall c: NavCategory ensures c in EmptyCache() && EmptyCache()[c] == [] {
      match c
      case Exits =>
      case NPCs =>
      case Enemies =>
      case Interactables =>
      case Scenery =>
      case POIs =>
    }
  }

  /** The cache after making the additions `fs` in order. */
  function File(cache: Cache, fs: seq<Filing>): (r: Cache)
    ensures Complete(cache) ==> Complete(r)
  {
    if fs == [] then cache
    else
      var before := File(cache, fs[..|fs| - 1]);
      var f := fs[|fs| - 1];
      before[f.category := (if f.category in before then before[f.category] else []) + [f.item]]
  }

  /** The items `fs` adds to category `c`, in order. */
  function Bucket(fs: seq<Filing>, c: NavCategory): seq<NavItem>
  {
    if fs == [] then []
    else Bucket(fs[..|fs| - 1], c) + (if fs[|fs| - 1].category == c then [fs[|fs| - 1].item] else [])
  }

  /** Making additions to a complete cache keeps it complete and appends to each list exactly its own additions. */
  lemma {:induction false} FileBucket(cache: Cache, fs: seq<Filing>, c: NavCategory)
    requires Complete(cache)
    ensures Complete(File(cache, fs))
    ensures File(cache, fs)[c] == cache[c] + Bucket(fs, c)
  {
    if fs != [] {
      FileBucket(cache, fs[..|fs| - 1], c);
    }
  }

  lemma {:induction false} BucketAppend(a: seq<Filing>, b: seq<Filing>, c: NavCategory)
    ensures Bucket(a + b, c) == Bucket(a, c) + Bucket(b, c)
    decreases |b|
  {
    if b == [] {
      assert a + b == a;
    } else {
      assert (a + b)[..|a + b| - 1] == a + b[..|b| - 1];
      BucketAppend(a, b[..|b| - 1], c);
    }
  }

  /** The items of a list of additions, in order. */
  function Items(fs: seq<Filing>): seq<NavItem> {
    seq(|fs|, k requires 0 <= k < |fs| => fs[k].item)
  }

  /** A list of additions of which none goes to `c` adds nothing to `c`. */
  lemma {:induction false} BucketNone(fs: seq<Filing>, c: NavCategory)
    requires forall k | 0 <= k < |fs| :: fs[k].category != c
    ensures Bucket(fs, c) == []
  {
    if fs != [] {
      BucketNone(fs[..|fs| - 1], c);
    }
  }

  /** An item in the list of `c` was added to `c`. */
  lemma {:induction false} BucketMember(fs: seq<Filing>, c: NavCategory, item: NavItem)
    requires item in Bucket(fs, c)
    ensures Filing(c, item) in fs
  {
    var init := fs[..|fs| - 1];
    if item in Bucket(init, c) {
      BucketMember(init, c, item);
      assert fs == init + [fs[|fs| - 1]];
    }
  }

  /** Every addition to `c` shows up in the list of `c`. */
  lemma {:induction false} BucketComplete(fs: seq<Filing>, f: Filing)
    requires f in fs
    ensures f.item in Bucket(fs, f.category)
  {
    var init := fs[..|fs| - 1];
    if f != fs[|fs| - 1] {
      assert fs == init + [fs[|fs| - 1]];
      BucketComplete(init, f);
    }
  }

  // ---------------------------------------------------------------------------
  // Exits
  // ---------------------------------------------------------------------------

  /**
   * The item for an exit: "exit <relative direction>, visited/new", one step
   * away, leading to the neighbour in the exit's direction.
   */
  function ExitItem(g: Grid, p: Piece, look: int, visited: set<Piece>, e: Exit): NavItem
    requires g.Valid() && g.Has(p)
  {
    var exitPiece := GetAdjacentPiece(g, Some(p), e.absoluteDirection);
    var dirName := GetRelativeName(AbsoluteToRelative(e.absoluteDirection, look));
    var visitedTag := if exitPiece.Some? && exitPiece.value in visited then PathRoomVisited else PathRoomNew;
    Item(Joined([Msg(NavExitItem, [Sub(Plain(dirName))]), Plain(visitedTag)]),
            NavCatExits, e.absoluteDirection, 1, exitPiece)
  }

  /** The additions for the exits: one Exits item per exit that is not blocked, in order. */
  function ExitFilings(g: Grid, p: Piece, look: int, visited: set<Piece>, exits: seq<Exit>): seq<Filing>
    requires g.Valid() && g.Has(p)
  {
    if exits == [] then []
    else
      var e := exits[|exits| - 1];
      ExitFilings(g, p, look, visited, exits[..|exits| - 1])
      + (if e.isBlocked then [] else [Filing(Exits, ExitItem(g, p, look, visited, e))])
  }

  /** Every exit addition goes to Exits and is the item of an exit of the list that is not blocked. */
  lemma {:induction false} ExitFilingsSound(g: Grid, p: Piece, look: int, visited: set<Piece>, exits: seq<Exit>, f: Filing)
    requires g.Valid() && g.Has(p) && f in ExitFilings(g, p, look, visited, exits)
    ensures f.category == Exits
    ensures exists e | e in exits && !e.isBlocked :: f.item == ExitItem(g, p, look, visited, e)
  {
    var init := exits[..|exits| - 1];
    var e := exits[|exits| - 1];
    if f in ExitFilings(g, p, look, visited, init) {
      ExitFilingsSound(g, p, look, visited, init, f);
      var e' :| e' in init && !e'.isBlocked && f.item == ExitItem(g, p, look, visited, e');
      assert e' in exits;
    } else {
      assert e in exits;
    }
  }

  /** Every exit of the list that is not blocked has its item among the exit additions. */
  lemma {:induction false} ExitFilingsComplete(g: Grid, p: Piece, look: int, visited: set<Piece>, exits: seq<Exit>, e: Exit)
    requires g.Valid() && g.Has(p) && e in exits && !e.isBlocked
    ensures Filing(Exits, ExitItem(g, p, look, visited, e)) in ExitFilings(g, p, look, visited, exits)
  {
    var init := exits[..|exits| - 1];
    if e != exits[|exits| - 1] {
      assert exits == init + [exits[|exits| - 1]];
      ExitFilingsComplete(g, p, look, visited, init, e);
    }
  }

  // ---------------------------------------------------------------------------
  // The player's own piece
  // ---------------------------------------------------------------------------

  /** An item on the player's own piece: no direction, no distance. */
  function RoomItem(p: Piece, name: Arg, kind: PoiKind): NavItem {
    Item(name, Poi(kind), -1, 0, Some(p))
  }

  /** `name ?? Loc.Get(kind)`: the entity's name, or the kind's word when the name is null. */
  function NameOr(name: Option<string>, kind: PoiKind): Arg {
    if name.Some? then Text(name.value) else Sub(Plain(Poi(kind)))
  }

  function When(present: bool, f: Filing): seq<Filing> {
    if present then [f] else []
  }

  /** The container of the piece is there and not yet opened (its activity in the scene is not consulted). */
  predicate ContainerUnopened(c: Cell) {
    c.myCollectionContainer.Some? && !c.myCollectionContainer.value.hasOpened
  }

  function EnemyFiling(c: Cell, p: Piece): Filing {
    var name := if c.myMapEnemy.Some? then c.myMapEnemy.value.enemyName else None;
    Filing(Enemies, RoomItem(p, NameOr(name, PoiEnemy), PoiEnemy))
  }

  function NpcFiling(c: Cell, p: Piece): Filing {
    var name := if c.myMapNPC.Some? then c.myMapNPC.value.npcName else None;
    Filing(NPCs, RoomItem(p, NameOr(name, PoiNpc), PoiNpc))
  }

  /** An interactive container is an Interactables item named by its kind; any other is Scenery under its base name. */
  function ContainerFiling(c: Cell, p: Piece): Filing {
    if IsInteractableContainer(c.myCollectionContainer) then
      Filing(Interactables, RoomItem(p, Sub(Plain(Poi(PoiContainer))), PoiContainer))
    else
      var name := if c.myCollectionContainer.Some? then c.myCollectionContainer.value.containerBaseName else None;
      Filing(Scenery, RoomItem(p, NameOr(name, PoiScenery), PoiScenery))
  }

  function FeatureFiling(p: Piece, kind: PoiKind): Filing {
    Filing(Interactables, RoomItem(p, Sub(Plain(Poi(kind))), kind))
  }

  /**
   * The specific category and item for each thing on the player's piece, in
   * the order AddCurrentRoomItems checks them: a live enemy, an NPC, an
   * unopened container, an active trap, a shop, fishing, cards.
   */
  function RoomEntries(c: Cell, p: Piece): seq<Filing> {
    Occupants(c, p) + Features(c, p)
  }

  /** The first checks: live enemy, NPC, unopened container. */
  function Occupants(c: Cell, p: Piece): seq<Filing> {
    When(EnemyAlive(c), EnemyFiling(c, p))
    + When(c.myMapNPC.Some?, NpcFiling(c, p))
    + When(ContainerUnopened(c), ContainerFiling(c, p))
  }

  /** Then the features: active trap, shop, fishing, cards. */
  function Features(c: Cell, p: Piece): seq<Filing> {
    When(TrapActive(c), FeatureFiling(p, PoiTrap))
    + When(c.canShop, FeatureFiling(p, PoiShop))
    + When(c.canFish, FeatureFiling(p, PoiFishing))
    + When(c.canPlayCards, FeatureFiling(p, PoiCards))
  }

  /** Each entry is added to its own category and then to POIs. */
  function Both(entries: seq<Filing>): seq<Filing> {
    if entries == [] then []
    else
      var e := entries[|entries| - 1];
      Both(entries[..|entries| - 1]) + [e, Filing(POIs, e.item)]
  }

  /** When a thing on the player's piece is listed, in the order of the kinds' checks. */
  predicate RoomHas(c: Cell, kind: PoiKind) {
    match kind
    case PoiEnemy => EnemyAlive(c)
    case PoiNpc => c.myMapNPC.Some?
    case PoiContainer => ContainerUnopened(c) && IsInteractableContainer(c.myCollectionContainer)
    case PoiScenery => ContainerUnopened(c) && !IsInteractableContainer(c.myCollectionContainer)
    case PoiTrap => TrapActive(c)
    case PoiShop => c.canShop
    case PoiFishing => c.canFish
    case PoiCards => c.canPlayCards
    case PoiDoor => false
  }

  /**
   * Every entry for the player's piece is an item of distance 0 and
   * direction -1 on that piece, tagged with a point-of-interest kind and
   * filed under exactly the category ClassifyPOI gives that kind: never
   * Exits, never POIs.
   */
  lemma RoomEntryFields(c: Cell, p: Piece, f: Filing)
    requires f in RoomEntries(c, p)
    ensures f.item.distance == 0 && f.item.absoluteDirection == -1 && f.item.piece == Some(p)
    ensures f.item.typeKey.Poi? && RoomHas(c, f.item.typeKey.kind)
    ensures f.category == ClassifyPOI(f.item.typeKey.kind) && f.category != POIs && f.category != Exits
  {
  }

  /** Conversely, each thing the player's piece holds has its entry. */
  lemma RoomEntriesCover(c: Cell, p: Piece, kind: PoiKind)
    requires RoomHas(c, kind)
    ensures exists f | f in RoomEntries(c, p) :: f.item.typeKey == Poi(kind)
  {
    var es := RoomEntries(c, p);
    match kind
    case PoiEnemy => assert EnemyFiling(c, p) in es;
    case PoiNpc => assert NpcFiling(c, p) in es;
    case PoiContainer => assert ContainerFiling(c, p) in es;
    case PoiScenery => assert ContainerFiling(c, p) in es;
    case PoiTrap | PoiShop | PoiFishing | PoiCards => assert FeatureFiling(p, kind) in es;
    case PoiDoor =>
  }

  lemma BucketPair(e: Filing, f: Filing, c: NavCategory)
    ensures Bucket([e, f], c) == (if e.category == c then [e.item] else []) + (if f.category == c then [f.item] else [])
  {
    assert [e, f][..1] == [e];
    assert [e][..0] == [];
    assert Bucket([e], c) == Bucket([], c) + (if e.category == c then [e.item] else []);
  }

  /** Doubling the entries adds each entry's item to its category and every item, in order, to POIs. */
  lemma {:induction false} BothBuckets(entries: seq<Filing>, c: NavCategory)
    requires forall k | 0 <= k < |entries| :: entries[k].category != POIs
    ensures Bucket(Both(entries), POIs) == Items(entries)
    ensures c != POIs ==> Bucket(Both(entries), c) == Bucket(entries, c)
  {
    if entries != [] {
      var init := entries[..|entries| - 1];
      var e := entries[|entries| - 1];
      var pair := [e, Filing(POIs, e.item)];
      BothBuckets(init, c);
      BucketAppend(Both(init), pair, c);
      BucketAppend(Both(init), pair, POIs);
      BucketPair(e, Filing(POIs, e.item), c);
      BucketPair(e, Filing(POIs, e.item), POIs);
      assert Both(entries) == Both(init) + pair;
      assert Items(entries) == Items(init) + [e.item];
    }
  }

  lemma BothAppend(a: seq<Filing>, b: seq<Filing>)
    ensures Both(a + b) == Both(a) + Both(b)
    decreases |b|
  {
    if b == [] {
      assert a + b == a;
    } else {
      assert (a + b)[..|a + b| - 1] == a + b[..|b| - 1];
      BothAppend(a, b[..|b| - 1]);
    }
  }

  // ---------------------------------------------------------------------------
  // Points of interest along the rays
  // ---------------------------------------------------------------------------

  /**
   * The item for a point of interest along a ray: its name (the kind's word
   * when the name is empty), its kind, direction and distance, and the piece
   * reached by walking that far.
   */
  function PoiItem(g: Grid, p: Piece, poi: PointOfInterest): NavItem
    requires g.Valid() && g.Has(p)
  {
    Item(if poi.name != "" then Text(poi.name) else Sub(Plain(Poi(poi.typeKey))),
            Poi(poi.typeKey), poi.absoluteDirection, poi.distance,
            if poi.distance <= 0 then Some(p) else Walk(g, p, poi.absoluteDirection, poi.distance))
  }

  /** The additions for one point of interest: its category, then POIs unless that is already its category. */
  function PoiFiling(g: Grid, p: Piece, poi: PointOfInterest): seq<Filing>
    requires g.Valid() && g.Has(p)
  {
    var item := PoiItem(g, p, poi);
    var cat := ClassifyPOI(poi.typeKey);
    [Filing(cat, item)] + (if cat != POIs then [Filing(POIs, item)] else [])
  }

  function PoiFilings(g: Grid, p: Piece, pois: seq<PointOfInterest>): seq<Filing>
    requires g.Valid() && g.Has(p)
  {
    if pois == [] then []
    else PoiFilings(g, p, pois[..|pois| - 1]) + PoiFiling(g, p, pois[|pois| - 1])
  }

  function PoiItems(g: Grid, p: Piece, pois: seq<PointOfInterest>): seq<NavItem>
    requires g.Valid() && g.Has(p)
  {
    seq(|pois|, k requires 0 <= k < |pois| => PoiItem(g, p, pois[k]))
  }

  /** One point of interest adds its item once to POIs, and to a specific category exactly when ClassifyPOI sends it there. */
  lemma PoiFilingBucket(g: Grid, p: Piece, poi: PointOfInterest, c: NavCategory)
    requires g.Valid() && g.Has(p)
    ensures Bucket(PoiFiling(g, p, poi), POIs) == [PoiItem(g, p, poi)]
    ensures c != POIs ==>
              Bucket(PoiFiling(g, p, poi), c) == if ClassifyPOI(poi.typeKey) == c then [PoiItem(g, p, poi)] else []
  {
    var item := PoiItem(g, p, poi);
    var cat := ClassifyPOI(poi.typeKey);
    if cat != POIs {
      BucketPair(Filing(cat, item), Filing(POIs, item), c);
      BucketPair(Filing(cat, item), Filing(POIs, item), POIs);
    } else {
      assert [Filing(POIs, item)][..0] == [];
    }
  }

  /** The additions for the points of interest put every item into POIs exactly once, in order. */
  lemma {:induction false} PoiFilingsInPOIs(g: Grid, p: Piece, pois: seq<PointOfInterest>)
    requires g.Valid() && g.Has(p)
    ensures Bucket(PoiFilings(g, p, pois), POIs) == PoiItems(g, p, pois)
  {
    if pois != [] {
      var init := pois[..|pois| - 1];
      var poi := pois[|pois| - 1];
      PoiFilingsInPOIs(g, p, init);
      BucketAppend(PoiFilings(g, p, init), PoiFiling(g, p, poi), POIs);
      PoiFilingBucket(g, p, poi, POIs);
      assert PoiItems(g, p, pois) == PoiItems(g, p, init) + [PoiItem(g, p, poi)];
    }
  }

  /** What the additions for the points of interest put into a specific category is the item of a point of interest ClassifyPOI sends there. */
  lemma {:induction false} PoiFilingsSpecific(g: Grid, p: Piece, pois: seq<PointOfInterest>, c: NavCategory, item: NavItem)
    requires g.Valid() && g.Has(p) && c != POIs && item in Bucket(PoiFilings(g, p, pois), c)
    ensures exists poi | poi in pois :: item == PoiItem(g, p, poi) && ClassifyPOI(poi.typeKey) == c
  {
    var init := pois[..|pois| - 1];
    var poi := pois[|pois| - 1];
    BucketAppend(PoiFilings(g, p, init), PoiFiling(g, p, poi), c);
    PoiFilingBucket(g, p, poi, c);
    if item in Bucket(PoiFilings(g, p, init), c) {
      PoiFilingsSpecific(g, p, init, c, item);
      var q :| q in init && item == PoiItem(g, p, q) && ClassifyPOI(q.typeKey) == c;
      assert q in pois;
    } else {
      assert poi in pois;
    }
  }

  /** Every point of interest classified under `c` has its item among the additions to `c`. */
  lemma {:induction false} PoiFilingsComplete(g: Grid, p: Piece, pois: seq<PointOfInterest>, poi: PointOfInterest)
    requires g.Valid() && g.Has(p) && poi in pois
    ensures PoiItem(g, p, poi) in Bucket(PoiFilings(g, p, pois), ClassifyPOI(poi.typeKey))
  {
    var init := pois[..|pois| - 1];
    var last := pois[|pois| - 1];
    var c := ClassifyPOI(poi.typeKey);
    BucketAppend(PoiFilings(g, p, init), PoiFiling(g, p, last), c);
    PoiFilingBucket(g, p, last, c);
    if poi != last {
      assert pois == init + [last];
      PoiFilingsComplete(g, p, init, poi);
    }
  }

  // ---------------------------------------------------------------------------
  // The whole cache
  // ---------------------------------------------------------------------------

  /** All additions RebuildCache makes for the player on `p` facing `look`: exits, own piece, rays. */
  function CacheFilings(g: Grid, p: Piece, look: int, visited: set<Piece>): seq<Filing>
    requires g.Valid() && g.Has(p)
  {
    ExitFilings(g, p, look, visited, ExitsBelow(g, p, 4))
    + Both(RoomEntries(g.cells[p], p))
    + PoiFilings(g, p, NearbyPOIs(g, p))
  }

  /** The cache RebuildCache leaves for the player on `p` facing `look`. */
  function BuiltCache(g: Grid, p: Piece, look: int, visited: set<Piece>): (r: Cache)
    requires g.Valid() && g.Has(p)
    ensures Complete(r)
  {
    EmptyCacheComplete();
    File(EmptyCache(), CacheFilings(g, p, look, visited))
  }

  /**
   * `cache` is the cache built for the player on `p` facing `look`. Stated
   * through a quantifier whose only trigger is the built cache itself, so a
   * proof unfolds BuiltCache only where it mentions it.
   */
  ghost predicate IsBuilt(g: Grid, cache: Cache, p: Piece, look: int, visited: set<Piece>)
    requires g.Valid()
  {
    forall q {:trigger BuiltCache(g, q, look, visited)} | q == p && g.Has(q) :: cache == BuiltCache(g, q, look, visited)
  }

  /** IsBuilt says exactly that the cache is the built one. */
  lemma IsBuiltMeans(g: Grid, cache: Cache, p: Piece, look: int, visited: set<Piece>)
    requires g.Valid() && g.Has(p)
    ensures IsBuilt(g, cache, p, look, visited) <==> cache == BuiltCache(g, p, look, visited)
  {
  }

  /** Each list of the built cache is what the exits, the player's piece and the rays add to it, in that order. */
  lemma CacheList(g: Grid, p: Piece, look: int, visited: set<Piece>, c: NavCategory)
    requires g.Valid() && g.Has(p)
    ensures BuiltCache(g, p, look, visited)[c] ==
              Bucket(ExitFilings(g, p, look, visited, ExitsBelow(g, p, 4)), c)
              + Bucket(Both(RoomEntries(g.cells[p], p)), c)
              + Bucket(PoiFilings(g, p, NearbyPOIs(g, p)), c)
  {
    EmptyCacheComplete();
    FileThree(ExitFilings(g, p, look, visited, ExitsBelow(g, p, 4)), Both(RoomEntries(g.cells[p], p)),
              PoiFilings(g, p, NearbyPOIs(g, p)), c);
  }

  /** Making the additions `a + b` is making `a`, then `b`. */
  lemma {:induction false} FileAppend(cache: Cache, a: seq<Filing>, b: seq<Filing>)
    ensures File(cache, a + b) == File(File(cache, a), b)
    decreases |b|
  {
    if b == [] {
      assert a + b == a;
    } else {
      assert (a + b)[..|a + b| - 1] == a + b[..|b| - 1];
      FileAppend(cache, a, b[..|b| - 1]);
    }
  }

  /** The built cache is made in three stages: the exits, the player's piece, the rays. */
  lemma BuiltInStages(g: Grid, p: Piece, look: int, visited: set<Piece>)
    requires g.Valid() && g.Has(p)
    ensures BuiltCache(g, p, look, visited) ==
              File(File(File(EmptyCache(), ExitFilings(g, p, look, visited, ExitsBelow(g, p, 4))),
                        Both(RoomEntries(g.cells[p], p))),
                   PoiFilings(g, p, NearbyPOIs(g, p)))
  {
    var ex := ExitFilings(g, p, look, visited, ExitsBelow(g, p, 4));
    var room := Both(RoomEntries(g.cells[p], p));
    FileAppend(EmptyCache(), ex + room, PoiFilings(g, p, NearbyPOIs(g, p)));
    FileAppend(EmptyCache(), ex, room);
  }

  /** Adding the pairs for `done`, then those for `w`, adds the pairs for `done + w`; a complete cache stays complete. */
  lemma FileBoth(cache: Cache, done: seq<Filing>, w: seq<Filing>)
    requires Complete(cache)
    ensures Complete(File(cache, Both(done)))
    ensures File(File(cache, Both(done)), Both(w)) == File(cache, Both(done + w))
  {
    BothAppend(done, w);
    FileAppend(cache, Both(done), Both(w));
  }

  lemma OccupantsChain(c: Cell, p: Piece, s0: Cache, s1: Cache, s2: Cache, s3: Cache)
    requires Complete(s0)
    requires s1 == File(s0, Both(When(EnemyAlive(c), EnemyFiling(c, p))))
    requires s2 == File(s1, Both(When(c.myMapNPC.Some?, NpcFiling(c, p))))
    requires s3 == File(s2, Both(When(ContainerUnopened(c), ContainerFiling(c, p))))
    ensures s3 == File(s0, Both(Occupants(c, p)))
  {
    var w1 := When(EnemyAlive(c), EnemyFiling(c, p));
    var w2 := When(c.myMapNPC.Some?, NpcFiling(c, p));
    FileBoth(s0, w1, w2);
    FileBoth(s0, w1 + w2, When(ContainerUnopened(c), ContainerFiling(c, p)));
  }

  lemma FeaturesChain(c: Cell, p: Piece, s3: Cache, s4: Cache, s5: Cache, s6: Cache, s7: Cache)
    requires Complete(s3)
    requires s4 == File(s3, Both(When(TrapActive(c), FeatureFiling(p, PoiTrap))))
    requires s5 == File(s4, Both(When(c.canShop, FeatureFiling(p, PoiShop))))
    requires s6 == File(s5, Both(When(c.canFish, FeatureFiling(p, PoiFishing))))
    requires s7 == File(s6, Both(When(c.canPlayCards, FeatureFiling(p, PoiCards))))
    ensures s7 == File(s3, Both(Features(c, p)))
  {
    var w4 := When(TrapActive(c), FeatureFiling(p, PoiTrap));
    var w5 := When(c.canShop, FeatureFiling(p, PoiShop));
    var w6 := When(c.canFish, FeatureFiling(p, PoiFishing));
    FileBoth(s3, w4, w5);
    FileBoth(s3, w4 + w5, w6);
    FileBoth(s3, w4 + w5 + w6, When(c.canPlayCards, FeatureFiling(p, PoiCards)));
  }

  /** Making three runs of additions to a fresh cache leaves in each list the three runs' items for it, in order. */
  lemma FileThree(a: seq<Filing>, b: seq<Filing>, d: seq<Filing>, c: NavCategory)
    ensures Complete(File(EmptyCache(), a + b + d))
    ensures File(EmptyCache(), a + b + d)[c] == Bucket(a, c) + Bucket(b, c) + Bucket(d, c)
  {
    EmptyCacheComplete();
    FileBucket(EmptyCache(), a + b + d, c);
    BucketAppend(a + b, d, c);
    BucketAppend(a, b, c);
  }

  /** The rays add nothing to Exits. */
  lemma {:induction false} PoiFilingsNoExits(g: Grid, p: Piece, pois: seq<PointOfInterest>)
    requires g.Valid() && g.Has(p)
    ensures Bucket(PoiFilings(g, p, pois), Exits) == []
  {
    if pois != [] {
      var init := pois[..|pois| - 1];
      PoiFilingsNoExits(g, p, init);
      BucketAppend(PoiFilings(g, p, init), PoiFiling(g, p, pois[|pois| - 1]), Exits);
      PoiFilingBucket(g, p, pois[|pois| - 1], Exits);
    }
  }

  /** The player's piece adds nothing to Exits, and to POIs every entry's item in order. */
  lemma RoomBuckets(c: Cell, p: Piece, cat: NavCategory)
    ensures Bucket(Both(RoomEntries(c, p)), Exits) == []
    ensures Bucket(Both(RoomEntries(c, p)), POIs) == Items(RoomEntries(c, p))
    ensures cat != POIs ==> Bucket(Both(RoomEntries(c, p)), cat) == Bucket(RoomEntries(c, p), cat)
  {
    var es := RoomEntries(c, p);
    forall k | 0 <= k < |es| ensures es[k].category != POIs && es[k].category != Exits {
      RoomEntryFields(c, p, es[k]);
    }
    BothBuckets(es, cat);
    BothBuckets(es, Exits);
    BucketNone(es, Exits);
  }

  /** The exits add to Exits only. */
  lemma ExitFilingsOnlyExits(g: Grid, p: Piece, look: int, visited: set<Piece>, exits: seq<Exit>, c: NavCategory)
    requires g.Valid() && g.Has(p) && c != Exits
    ensures Bucket(ExitFilings(g, p, look, visited, exits), c) == []
  {
    var fs := ExitFilings(g, p, look, visited, exits);
    forall k | 0 <= k < |fs| ensures fs[k].category != c {
      ExitFilingsSound(g, p, look, visited, exits, fs[k]);
    }
    BucketNone(fs, c);
  }

  /**
   * After a rebuild, Exits holds only exits the player can take: each item
   * is one step away in a genuine direction, leads to the neighbour there,
   * and no traversal rule blocks the move.
   */
  lemma CachedExitOpen(g: Grid, p: Piece, look: int, visited: set<Piece>, item: NavItem)
    requires g.Valid() && g.Has(p) && item in BuiltCache(g, p, look, visited)[Exits]
    ensures item.distance == 1 && item.typeKey == NavCatExits && IsDir(item.absoluteDirection)
    ensures item.piece == GetAdjacentPiece(g, Some(p), item.absoluteDirection) && item.piece.Some?
    ensures !IsDirectionBlocked(g, p, item.piece, item.absoluteDirection)
  {
    var exits := ExitsBelow(g, p, 4);
    CacheList(g, p, look, visited, Exits);
    RoomBuckets(g.cells[p], p, Exits);
    PoiFilingsNoExits(g, p, NearbyPOIs(g, p));
    var fs := ExitFilings(g, p, look, visited, exits);
    BucketMember(fs, Exits, item);
    ExitFilingsSound(g, p, look, visited, exits, Filing(Exits, item));
    var e :| e in exits && !e.isBlocked && item == ExitItem(g, p, look, visited, e);
    var k :| 0 <= k < |exits| && exits[k] == e;
    ExitsBelowSound(g, p, 4, k);
  }

  /** Conversely, every direction the player can take from the piece has its item in Exits. */
  lemma CachedExitComplete(g: Grid, p: Piece, look: int, visited: set<Piece>, d: int)
    requires g.Valid() && g.Has(p) && IsDir(d) && GetAdjacentPiece(g, Some(p), d).Some?
    requires !IsDirectionBlocked(g, p, GetAdjacentPiece(g, Some(p), d), d)
    ensures ExitItem(g, p, look, visited, Exit(d, false)) in BuiltCache(g, p, look, visited)[Exits]
  {
    var exits := ExitsBelow(g, p, 4);
    ExitsBelowComplete(g, p, 4, d);
    var k :| 0 <= k < |exits| && exits[k].absoluteDirection == d;
    ExitsBelowSound(g, p, 4, k);
    assert exits[k] == Exit(d, false);
    ExitFilingsComplete(g, p, look, visited, exits, exits[k]);
    BucketComplete(ExitFilings(g, p, look, visited, exits), Filing(Exits, ExitItem(g, p, look, visited, exits[k])));
    CacheList(g, p, look, visited, Exits);
  }

  /**
   * After a rebuild, POIs lists every item of the player's own piece and
   * then every point of interest along the rays, each exactly once, in the
   * order they were found.
   */
  lemma CachedPOIs(g: Grid, p: Piece, look: int, visited: set<Piece>)
    requires g.Valid() && g.Has(p)
    ensures BuiltCache(g, p, look, visited)[POIs] == Items(RoomEntries(g.cells[p], p)) + PoiItems(g, p, NearbyPOIs(g, p))
  {
    var ex := ExitFilings(g, p, look, visited, ExitsBelow(g, p, 4));
    var room := Both(RoomEntries(g.cells[p], p));
    var rays := PoiFilings(g, p, NearbyPOIs(g, p));
    CacheList(g, p, look, visited, POIs);
    ExitFilingsOnlyExits(g, p, look, visited, ExitsBelow(g, p, 4), POIs);
    RoomBuckets(g.cells[p], p, POIs);
    PoiFilingsInPOIs(g, p, NearbyPOIs(g, p));
    assert Bucket(ex, POIs) == [];
    assert Bucket(room, POIs) == Items(RoomEntries(g.cells[p], p));
    assert Bucket(rays, POIs) == PoiItems(g, p, NearbyPOIs(g, p));
    assert [] + Items(RoomEntries(g.cells[p], p)) == Items(RoomEntries(g.cells[p], p));
  }

  /**
   * After a rebuild, a specific category (NPCs, Enemies, Interactables,
   * Scenery) holds only items whose kind ClassifyPOI sends there: things on
   * the player's own piece (distance 0) or points of interest along the rays.
   */
  lemma CachedSpecificSound(g: Grid, p: Piece, look: int, visited: set<Piece>, c: NavCategory, item: NavItem)
    requires g.Valid() && g.Has(p) && c != Exits && c != POIs
    requires item in BuiltCache(g, p, look, visited)[c]
    ensures item.typeKey.Poi? && ClassifyPOI(item.typeKey.kind) == c
    ensures || (item.distance == 0 && item.piece == Some(p) && RoomHas(g.cells[p], item.typeKey.kind))
            || (exists poi | poi in NearbyPOIs(g, p) :: item == PoiItem(g, p, poi))
  {
    var es := RoomEntries(g.cells[p], p);
    CacheList(g, p, look, visited, c);
    ExitFilingsOnlyExits(g, p, look, visited, ExitsBelow(g, p, 4), c);
    RoomBuckets(g.cells[p], p, c);
    if item in Bucket(es, c) {
      BucketMember(es, c, item);
      RoomEntryFields(g.cells[p], p, Filing(c, item));
    } else {
      PoiFilingsSpecific(g, p, NearbyPOIs(g, p), c, item);
    }
  }

  /** Every point of interest along the rays has its item in the category ClassifyPOI gives its kind. */
  lemma CachedPoiComplete(g: Grid, p: Piece, look: int, visited: set<Piece>, poi: PointOfInterest)
    requires g.Valid() && g.Has(p) && poi in NearbyPOIs(g, p)
    ensures PoiItem(g, p, poi) in BuiltCache(g, p, look, visited)[ClassifyPOI(poi.typeKey)]
  {
    CacheList(g, p, look, visited, ClassifyPOI(poi.typeKey));
    PoiFilingsComplete(g, p, NearbyPOIs(g, p), poi);
  }

  /** Every thing on the player's own piece has a distance-0 item in the category ClassifyPOI gives its kind. */
  lemma CachedRoomComplete(g: Grid, p: Piece, look: int, visited: set<Piece>, kind: PoiKind)
    requires g.Valid() && g.Has(p) && RoomHas(g.cells[p], kind)
    ensures exists item | item in BuiltCache(g, p, look, visited)[ClassifyPOI(kind)] ::
              item.typeKey == Poi(kind) && item.distance == 0 && item.piece == Some(p)
  {
    var es := RoomEntries(g.cells[p], p);
    RoomEntriesCover(g.cells[p], p, kind);
    var f :| f in es && f.item.typeKey == Poi(kind);
    RoomEntryFields(g.cells[p], p, f);
    BucketComplete(es, f);
    CacheList(g, p, look, visited, f.category);
    RoomBuckets(g.cells[p], p, f.category);
    assert f.item in BuiltCache(g, p, look, visited)[ClassifyPOI(kind)];
  }

  /** Every point of interest along the rays is reachable by walking: its item has a piece. */
  lemma PoiItemHasPiece(g: Grid, p: Piece, poi: PointOfInterest)
    requires g.Valid() && g.Has(p) && poi in NearbyPOIs(g, p)
    ensures PoiItem(g, p, poi).piece.Some?
  {
    NearbyPoiSound(g, p, poi);
    OpenRayWalks(g, p, poi.absoluteDirection, poi.distance);
  }

  /** Every item `fs` adds names a piece of the level, or none. */
  ghost predicate PiecesIn(fs: seq<Filing>, n: nat) {
    forall f | f in fs :: InRange(f.item.piece, n)
  }

  lemma {:induction false} ExitFilingsPieces(g: Grid, p: Piece, look: int, visited: set<Piece>, exits: seq<Exit>)
    requires g.Valid() && g.Has(p)
    ensures PiecesIn(ExitFilings(g, p, look, visited, exits), |g.cells|)
  {
    forall f | f in ExitFilings(g, p, look, visited, exits) ensures InRange(f.item.piece, |g.cells|) {
      ExitFilingsSound(g, p, look, visited, exits, f);
    }
  }

  lemma {:induction false} BothPieces(entries: seq<Filing>, n: nat)
    requires PiecesIn(entries, n)
    ensures PiecesIn(Both(entries), n)
    decreases |entries|
  {
    if entries != [] {
      BothPieces(entries[..|entries| - 1], n);
      assert entries[|entries| - 1] in entries;
    }
  }

  lemma {:induction false} PoiFilingsPieces(g: Grid, p: Piece, pois: seq<PointOfInterest>)
    requires g.Valid() && g.Has(p)
    ensures PiecesIn(PoiFilings(g, p, pois), |g.cells|)
    decreases |pois|
  {
    if pois != [] {
      PoiFilingsPieces(g, p, pois[..|pois| - 1]);
    }
  }

  /** Every item of the built cache names a piece of the level, or none, so directions to it can be searched for. */
  lemma CachedPiecesInLevel(g: Grid, p: Piece, look: int, visited: set<Piece>, c: NavCategory, item: NavItem)
    requires g.Valid() && g.Has(p) && item in BuiltCache(g, p, look, visited)[c]
    ensures InRange(item.piece, |g.cells|)
  {
    var ex := ExitFilings(g, p, look, visited, ExitsBelow(g, p, 4));
    var es := RoomEntries(g.cells[p], p);
    var rays := PoiFilings(g, p, NearbyPOIs(g, p));
    ExitFilingsPieces(g, p, look, visited, ExitsBelow(g, p, 4));
    forall f | f in es ensures InRange(f.item.piece, |g.cells|) {
      RoomEntryFields(g.cells[p], p, f);
    }
    BothPieces(es, |g.cells|);
    PoiFilingsPieces(g, p, NearbyPOIs(g, p));
    EmptyCacheComplete();
    FileBucket(EmptyCache(), ex + Both(es) + rays, c);
    BucketMember(ex + Both(es) + rays, c, item);
    assert Filing(c, item) in ex + Both(es) + rays;
  }

  // ---------------------------------------------------------------------------
  // The handler
  // ---------------------------------------------------------------------------

  /**
   * The per-frame navigation handler. Whether the game manager has been
   * found, the piece it reports and the player's facing, the keys pressed
   * this frame, and the set of pieces the pathfinding handler has visited
   * are what the handler reads from outside; speech is appended to
   * `spoken`. Whenever the cache is rebuilt, the game manager reports the
   * piece and facing Update has just recorded in `lastPiece` and
   * `lastLookDir`.
   */
  class NavigationHandler {
    /** The level: every piece the game manager can report. */
    const grid: Grid

    var hasGameManager: bool
    var currentCategoryIndex: int
    var currentItemIndex: int
    var lastPiece: Option<Piece>
    var lastLookDir: int
    /** The lists per category; empty until the first rebuild after an invalidation. */
    var cachedItems: Cache
    /** Everything handed to the screen reader, oldest first. */
    var spoken: seq<Speech>

    /** The visited pieces the cache was built with. */
    ghost var cacheVisited: set<Piece>

    /** GetCategoryItems: the category's list, or an empty one when the cache has none. */
    function CategoryItems(cat: NavCategory): seq<NavItem>
      reads this`cachedItems
    {
      if cat in cachedItems then cachedItems[cat] else []
    }

    /** The list of the selected category. */
    function CurrentItems(): seq<NavItem>
      reads this`cachedItems, this`currentCategoryIndex
      requires 0 <= currentCategoryIndex < |AllCategories|
    {
      CategoryItems(AllCategories[currentCategoryIndex])
    }

    /** The facing the game manager reports, or 0 without a game manager. */
    function Facing(): int
      reads this`hasGameManager, this`lastLookDir
    {
      if hasGameManager then lastLookDir else 0
    }

    /**
     * `after` is the cache after EnsureCache when it was `before`: kept
     * when filled, otherwise rebuilt for the reported piece and facing.
     */
    ghost predicate Refreshed(before: Cache, after: Cache, visited: set<Piece>)
      reads this`hasGameManager, this`lastPiece, this`lastLookDir
      requires grid.Valid() && InRange(lastPiece, |grid.cells|)
    {
      if before != map[] then after == before
      else if hasGameManager && lastPiece.Some? then IsBuilt(grid, after, lastPiece.value, lastLookDir, visited)
      else after == EmptyCache()
    }

    /**
     * A filled cache is either the bare lists (no game manager or no piece
     * when it was built) or exactly what RebuildCache builds for the last
     * piece and facing.
     */
    ghost predicate CacheOk()
      reads this`cachedItems, this`lastPiece, this`lastLookDir, this`cacheVisited
      requires grid.Valid() && InRange(lastPiece, |grid.cells|)
    {
      cachedItems != map[] ==>
        || cachedItems == EmptyCache()
        || (lastPiece.Some? && IsBuilt(grid, cachedItems, lastPiece.value, lastLookDir, cacheVisited))
    }

    /**
     * The outcome of CycleCategory from category `category`, with `said`
     * the speech so far: the category `direction` steps away, wrapping
     * round, with its first item selected, announced with that item and the
     * count, or with "no items".
     */
    ghost predicate CategoryCycled(category: int, direction: int, said: seq<Speech>)
      reads this
    {
      && currentCategoryIndex == Wrap(category + direction, |AllCategories|)
      && currentItemIndex == 0
      && spoken == said + [Say(CategoryAnnouncement(AllCategories[currentCategoryIndex], CurrentItems(), Facing()))]
    }

    /**
     * The outcome of CycleItem in category `category` from item `item`, with
     * `said` the speech so far: "no items" with the index kept in an empty
     * category, else the item `direction` steps away, wrapping round,
     * announced with its position.
     */
    ghost predicate ItemCycled(category: int, item: int, direction: int, said: seq<Speech>)
      reads this
    {
      && currentCategoryIndex == category && 0 <= category < |AllCategories|
      && (CurrentItems() == [] ==>
            currentItemIndex == item && spoken == said + [Say(NoItemsAnnouncement(AllCategories[category]))])
      && (CurrentItems() != [] ==>
            && currentItemIndex == Wrap(item + direction, |CurrentItems()|)
            && spoken == said + [Say(PositionAnnouncement(AllCategories[category], CurrentItems(), currentItemIndex, Facing()))])
    }

    /** The outcome of AnnounceDirections, with `said` the speech so far: the directions answer for the selected item. */
    ghost predicate DirectionsSaid(said: seq<Speech>)
      reads this
      requires Valid()
    {
      exists text :: DirectionsAnswer(CurrentItems(), currentItemIndex, text) && spoken == said + [Say(text)]
    }

    ghost predicate Valid()
      reads this`cachedItems, this`lastPiece, this`lastLookDir, this`cacheVisited,
            this`currentCategoryIndex, this`currentItemIndex
    {
      && grid.Valid() && InRange(lastPiece, |grid.cells|)
      && CacheOk() && SelectionOk()
    }

    /** The category index is one of the six, and the item index is 0 or within the category's list. */
    predicate SelectionOk()
      reads this`cachedItems, this`currentCategoryIndex, this`currentItemIndex
    {
      && 0 <= currentCategoryIndex < |AllCategories|
      && 0 <= currentItemIndex
      && (currentItemIndex == 0 || currentItemIndex < |CurrentItems()|)
    }

    constructor(g: Grid)
      requires g.Valid()
      ensures Valid() && grid == g
      ensures !hasGameManager && lastPiece.None? && lastLookDir == -1
      ensures currentCategoryIndex == 0 && currentItemIndex == 0 && cachedItems == map[] && spoken == []
    {
      grid := g;
      hasGameManager := false;
      currentCategoryIndex := 0;
      currentItemIndex := 0;
      lastPiece := None;
      lastLookDir := -1;
      cachedItems := map[];
      spoken := [];
      cacheVisited := {};
    }

    /** The game manager has been found. */
    method SetGameManager()
      requires Valid()
      modifies this`hasGameManager
      ensures Valid() && hasGameManager
    {
      hasGameManager := true;
    }

    /** Scene change: forget the game manager, the last piece and facing, the selection and the cache. */
    method Reset()
      requires Valid()
      modifies this`hasGameManager, this`lastPiece, this`lastLookDir, this`currentCategoryIndex,
               this`currentItemIndex, this`cachedItems
      ensures Valid()
      ensures !hasGameManager && lastPiece.None? && lastLookDir == -1
      ensures currentCategoryIndex == 0 && currentItemIndex == 0 && cachedItems == map[]
    {
      hasGameManager := false;
      lastPiece := None;
      lastLookDir := -1;
      currentCategoryIndex := 0;
      currentItemIndex := 0;
      cachedItems := map[];
    }

    /** Empty the cache and go back to the first item of the first category. */
    method InvalidateCache()
      requires grid.Valid()
      modifies this`cachedItems, this`currentCategoryIndex, this`currentItemIndex
      ensures cachedItems == map[] && currentCategoryIndex == 0 && currentItemIndex == 0
    {
      cachedItems := map[];
      currentCategoryIndex := 0;
      currentItemIndex := 0;
    }

    /** `_cachedItems[cat].Add(item)`. */
    method Add(cat: NavCategory, item: NavItem)
      requires cat in cachedItems
      modifies this`cachedItems
      ensures cachedItems == File(old(cachedItems), [Filing(cat, item)])
    {
      cachedItems := cachedItems[cat := cachedItems[cat] + [item]];
      assert [Filing(cat, item)][..0] == [];
    }

    /** Add one entry of the player's piece, if present, to its own category and then to POIs. */
    method AddRoomEntry(present: bool, f: Filing)
      requires f.category in cachedItems && POIs in cachedItems
      modifies this`cachedItems
      ensures cachedItems == File(old(cachedItems), Both(When(present, f)))
    {
      if present {
        ghost var base := cachedItems;
        Add(f.category, f.item);
        Add(POIs, f.item);
        assert [f] + [Filing(POIs, f.item)] == [f, Filing(POIs, f.item)];
        FileAppend(base, [f], [Filing(POIs, f.item)]);
        assert Both([f]) == [f, Filing(POIs, f.item)] by {
          assert [f][..0] == [];
        }
      }
    }

    /**
     * AddCurrentRoomItems: each thing on the player's piece, in the order of
     * the checks (live enemy, NPC, unopened container, active trap, shop,
     * fishing, cards), is added to its category and to POIs.
     */
    method AddCurrentRoomItems(p: Piece)
      requires grid.Valid() && grid.Has(p) && Complete(cachedItems)
      modifies this`cachedItems
      ensures cachedItems == File(old(cachedItems), Both(RoomEntries(grid.cells[p], p)))
    {
      var c := grid.cells[p];
      ghost var s0 := cachedItems;
      AddRoomEntry(EnemyAlive(c), EnemyFiling(c, p));
      ghost var s1 := cachedItems;
      AddRoomEntry(c.myMapNPC.Some?, NpcFiling(c, p));
      ghost var s2 := cachedItems;
      AddRoomEntry(ContainerUnopened(c), ContainerFiling(c, p));
      ghost var s3 := cachedItems;
      AddRoomEntry(TrapActive(c), FeatureFiling(p, PoiTrap));
      ghost var s4 := cachedItems;
      AddRoomEntry(c.canShop, FeatureFiling(p, PoiShop));
      ghost var s5 := cachedItems;
      AddRoomEntry(c.canFish, FeatureFiling(p, PoiFishing));
      ghost var s6 := cachedItems;
      AddRoomEntry(c.canPlayCards, FeatureFiling(p, PoiCards));
      OccupantsChain(c, p, s0, s1, s2, s3);
      FeaturesChain(c, p, s3, s4, s5, s6, cachedItems);
      FileBoth(s0, Occupants(c, p), Features(c, p));
    }

    /**
     * RebuildCache: fresh lists for every category; then, with a game
     * manager reporting a piece, one Exits item per exit that is not blocked,
     * the things on the player's piece, and each point of interest along the
     * rays in its category and in POIs.
     */
    method RebuildCache(visited: set<Piece>)
      requires grid.Valid() && InRange(lastPiece, |grid.cells|)
      modifies this`cachedItems, this`cacheVisited
      ensures cacheVisited == visited && CacheOk()
      ensures !hasGameManager || lastPiece.None? ==> cachedItems == EmptyCache()
      ensures hasGameManager && lastPiece.Some? ==>
                cachedItems == BuiltCache(grid, lastPiece.value, lastLookDir, visited)
    {
      CreateLists();
      cacheVisited := visited;
      EmptyCacheComplete();
      if !hasGameManager {
        return;
      }
      var currentPiece := lastPiece;
      if currentPiece.None? {
        return;
      }
      var p := currentPiece.value;
      var lookDir := lastLookDir;

      var exits := ScanExits(grid, currentPiece);
      AddExits(p, lookDir, visited, exits);
      AddCurrentRoomItems(p);
      var pois := ScanNearbyPOIs(grid, currentPiece);
      AddNearbyPOIs(p, pois);
      BuiltInStages(grid, p, lookDir, visited);
    }

    /** One Exits item per exit that is not blocked: its relative direction from `lookDir`, and whether its piece was visited. */
    method AddExits(p: Piece, lookDir: int, visited: set<Piece>, exits: seq<Exit>)
      requires grid.Valid() && grid.Has(p) && Complete(cachedItems)
      modifies this`cachedItems
      ensures cachedItems == File(old(cachedItems), ExitFilings(grid, p, lookDir, visited, exits))
    {
      ghost var base := cachedItems;
      for k := 0 to |exits|
        invariant cachedItems == File(base, ExitFilings(grid, p, lookDir, visited, exits[..k]))
      {
        var exit := exits[k];
        assert exits[..k + 1][..k] == exits[..k];
        assert ExitFilings(grid, p, lookDir, visited, exits[..k + 1]) ==
               ExitFilings(grid, p, lookDir, visited, exits[..k])
               + (if exit.isBlocked then [] else [Filing(Exits, ExitItem(grid, p, lookDir, visited, exit))]);
        if exit.isBlocked {
          assert ExitFilings(grid, p, lookDir, visited, exits[..k]) + [] == ExitFilings(grid, p, lookDir, visited, exits[..k]);
          continue;
        }
        var relDir := AbsoluteToRelative(exit.absoluteDirection, lookDir);
        var dirName := GetRelativeName(relDir);
        var exitPiece := GetAdjacentPiece(grid, Some(p), exit.absoluteDirection);
        var visitedTag := if exitPiece.Some? && exitPiece.value in visited then PathRoomVisited else PathRoomNew;
        var item := Item(Joined([Msg(NavExitItem, [Sub(Plain(dirName))]), Plain(visitedTag)]),
                         NavCatExits, exit.absoluteDirection, 1, exitPiece);
        assert item == ExitItem(grid, p, lookDir, visited, exit);
        ghost var before := cachedItems;
        Add(Exits, item);
        assert cachedItems == File(before, [Filing(Exits, item)]);
        FileAppend(base, ExitFilings(grid, p, lookDir, visited, exits[..k]), [Filing(Exits, item)]);
      }
      assert exits[..|exits|] == exits;
    }

    /**
     * Each point of interest along the rays, named by its name or else its
     * kind's word, with the piece reached by walking to it, goes to the
     * category ClassifyPOI gives its kind and, unless that is POIs, to POIs.
     */
    method AddNearbyPOIs(p: Piece, pois: seq<PointOfInterest>)
      requires grid.Valid() && grid.Has(p) && Complete(cachedItems)
      modifies this`cachedItems
      ensures cachedItems == File(old(cachedItems), PoiFilings(grid, p, pois))
    {
      ghost var base := cachedItems;
      for k := 0 to |pois|
        invariant cachedItems == File(base, PoiFilings(grid, p, pois[..k]))
      {
        var poi := pois[k];
        assert pois[..k + 1][..k] == pois[..k];
        var piece := GetPieceAtDistance(grid, p, poi.absoluteDirection, poi.distance);
        var item := Item(if poi.name != "" then Text(poi.name) else Sub(Plain(Poi(poi.typeKey))),
                         Poi(poi.typeKey), poi.absoluteDirection, poi.distance, piece);
        assert item == PoiItem(grid, p, poi);
        var targetCat := ClassifyPOI(poi.typeKey);
        ghost var before := cachedItems;
        Add(targetCat, item);
        if targetCat != POIs {
          Add(POIs, item);
          FileAppend(before, [Filing(targetCat, item)], [Filing(POIs, item)]);
          assert [Filing(targetCat, item)] + [Filing(POIs, item)] == PoiFiling(grid, p, poi);
        } else {
          assert [Filing(targetCat, item)] == PoiFiling(grid, p, poi);
        }
        FileAppend(base, PoiFilings(grid, p, pois[..k]), PoiFiling(grid, p, poi));
      }
      assert pois[..|pois|] == pois;
    }

    /** EnsureCache: rebuild only when the cache is empty. */
    method EnsureCache(visited: set<Piece>)
      requires Valid()
      modifies this`cachedItems, this`cacheVisited
      ensures Valid() && Refreshed(old(cachedItems), cachedItems, visited)
    {
      if cachedItems == map[] {
        RebuildCache(visited);
      }
    }

    /**
     * CycleCategory: step the category index by `direction` with wrap-around,
     * select its first item, and announce the category with "no items" or
     * with its first item and the count.
     */
    method CycleCategory(direction: int, visited: set<Piece>)
      requires Valid()
      modifies this`cachedItems, this`cacheVisited, this`currentCategoryIndex, this`currentItemIndex, this`spoken
      ensures Valid() && Refreshed(old(cachedItems), cachedItems, visited)
      ensures CategoryCycled(old(currentCategoryIndex), direction, old(spoken))
    {
      EnsureCache(visited);
      currentCategoryIndex := Wrap(currentCategoryIndex + direction, |AllCategories|);
      currentItemIndex := 0;
      var cat := AllCategories[currentCategoryIndex];
      var items := CategoryItems(cat);
      spoken := spoken + [Say(CategoryAnnouncement(cat, items, Facing()))];
    }

    /**
     * CycleItem: in an empty category, say "no items" and keep the index;
     * otherwise step the item index by `direction` with wrap-around and
     * announce the item with its position.
     */
    method CycleItem(direction: int, visited: set<Piece>)
      requires Valid()
      modifies this`cachedItems, this`cacheVisited, this`currentItemIndex, this`spoken
      ensures Valid() && Refreshed(old(cachedItems), cachedItems, visited)
      ensures ItemCycled(old(currentCategoryIndex), old(currentItemIndex), direction, old(spoken))
    {
      EnsureCache(visited);
      var cat := AllCategories[currentCategoryIndex];
      var items := CategoryItems(cat);
      if |items| == 0 {
        spoken := spoken + [Say(NoItemsAnnouncement(cat))];
        return;
      }
      currentItemIndex := Wrap(currentItemIndex + direction, |items|);
      spoken := spoken + [Say(PositionAnnouncement(cat, items, currentItemIndex, Facing()))];
    }

    /**
     * AnnounceDirections: "unreachable" for an empty category, "here" for an
     * item on the player's piece, "unreachable" when there is no piece to
     * walk to, else the directions BuildDirections finds from the reported
     * piece and facing.
     */
    method AnnounceDirections(visited: set<Piece>)
      requires Valid() && hasGameManager
      modifies this`cachedItems, this`cacheVisited, this`spoken
      ensures Valid() && Refreshed(old(cachedItems), cachedItems, visited)
      ensures currentCategoryIndex == old(currentCategoryIndex) && currentItemIndex == old(currentItemIndex)
      ensures DirectionsSaid(old(spoken))
    {
      EnsureCache(visited);
      var cat := AllCategories[currentCategoryIndex];
      var items := CategoryItems(cat);
      forall item | item in items ensures InRange(item.piece, |grid.cells|) {
        ItemPieceInLevel(cat, item);
      }
      var text := DirectionsFor(items, currentItemIndex);
      spoken := spoken + [Say(text)];
    }

    /** The branches of AnnounceDirections once the selected category's list is known. */
    method DirectionsFor(items: seq<NavItem>, index: int) returns (text: seq<Msg>)
      requires grid.Valid() && InRange(lastPiece, |grid.cells|)
      requires forall item | item in items :: InRange(item.piece, |grid.cells|)
      requires items != [] ==> 0 <= index < |items|
      ensures DirectionsAnswer(items, index, text)
    {
      if |items| == 0 {
        return [Plain(NavUnreachable)];
      }
      var item := items[index];
      if item.distance == 0 {
        return [Plain(NavHere)];
      }
      var currentPiece := lastPiece;
      if currentPiece.None? || item.piece.None? {
        return [Plain(NavUnreachable)];
      }
      text := BuildDirections(grid, currentPiece.value, lastLookDir, item.piece.value);
    }

    /**
     * What AnnounceDirections says for the selected item of `items`:
     * "unreachable" for an empty list, "here" for an item on the player's
     * piece, "unreachable" without a piece to walk to, else directions to it.
     */
    ghost predicate DirectionsAnswer(items: seq<NavItem>, index: int, text: seq<Msg>)
      reads this`lastPiece, this`lastLookDir
      requires grid.Valid() && InRange(lastPiece, |grid.cells|)
    {
      if items == [] then text == [Plain(NavUnreachable)]
      else
        0 <= index < |items| &&
        var item := items[index];
        if item.distance == 0 then text == [Plain(NavHere)]
        else if lastPiece.None? || item.piece.None? then text == [Plain(NavUnreachable)]
        else grid.Has(item.piece.value) && DirectionsTo(grid, lastPiece.value, lastLookDir, item.piece.value, text)
    }

    /** An item of a filled cache names a piece of the level, or none. */
    lemma ItemPieceInLevel(cat: NavCategory, item: NavItem)
      requires Valid() && item in CategoryItems(cat)
      ensures InRange(item.piece, |grid.cells|)
    {
      if cachedItems == EmptyCache() {
        EmptyCacheComplete();
      } else {
        assert cachedItems == BuiltCache(grid, lastPiece.value, lastLookDir, cacheVisited);
        CachedPiecesInLevel(grid, lastPiece.value, lastLookDir, cacheVisited, cat, item);
      }
    }

    /**
     * Update, once per frame: look for the game manager while there is none
     * (`found` says whether it turned up), stop without one or without a
     * reported piece, invalidate the cache when the piece or the facing has
     * changed since the last frame and record both, then handle the keys.
     */
    method Update(found: bool, currentPiece: Option<Piece>, look: int,
                  ctrl: bool, pageUp: bool, pageDown: bool, end: bool, visited: set<Piece>)
      requires Valid() && InRange(currentPiece, |grid.cells|)
      modifies this`hasGameManager, this`lastPiece, this`lastLookDir, this`cachedItems, this`cacheVisited,
               this`currentCategoryIndex, this`currentItemIndex, this`spoken
      ensures Valid()
      ensures hasGameManager == (old(hasGameManager) || found)
      ensures !hasGameManager || currentPiece.None? ==>
                && lastPiece == old(lastPiece) && lastLookDir == old(lastLookDir) && cachedItems == old(cachedItems)
                && currentCategoryIndex == old(currentCategoryIndex) && currentItemIndex == old(currentItemIndex)
                && spoken == old(spoken)
      ensures hasGameManager && currentPiece.Some? ==> lastPiece == currentPiece && lastLookDir == look
      ensures hasGameManager && currentPiece.Some? && (pageUp || pageDown || end) ==>
                if currentPiece == old(lastPiece) && look == old(lastLookDir) && old(cachedItems) != map[]
                then cachedItems == old(cachedItems)
                else IsBuilt(grid, cachedItems, currentPiece.value, look, visited)
      ensures hasGameManager && currentPiece.Some? ==>
                var moved := currentPiece != old(lastPiece) || look != old(lastLookDir);
                var category := if moved then 0 else old(currentCategoryIndex);
                var item := if moved then 0 else old(currentItemIndex);
                && currentCategoryIndex == KeyCategory(category, ctrl, pageUp, pageDown)
                && (!(pageUp || pageDown || end) ==>
                      && spoken == old(spoken) && currentItemIndex == item
                      && cachedItems == if moved then map[] else old(cachedItems))
                && (ctrl && pageUp ==> CategoryCycled(category, -1, old(spoken)))
                && (ctrl && !pageUp && pageDown ==> CategoryCycled(category, 1, old(spoken)))
                && (!ctrl && pageUp ==> ItemCycled(category, item, -1, old(spoken)))
                && (!ctrl && !pageUp && pageDown ==> ItemCycled(category, item, 1, old(spoken)))
                && (!pageUp && !pageDown && end ==> currentItemIndex == item && DirectionsSaid(old(spoken)))
    {
      if !hasGameManager {
        hasGameManager := found;
        if !hasGameManager {
          return;
        }
      }
      if currentPiece.None? {
        return;
      }
      HandleFrame(currentPiece.value, look, ctrl, pageUp, pageDown, end, visited);
    }

    /**
     * The part of Update once the game manager and the player's piece are
     * known: the movement check, then the keys.
     */
    method HandleFrame(current: Piece, look: int, ctrl: bool, pageUp: bool, pageDown: bool, end: bool, visited: set<Piece>)
      requires Valid() && hasGameManager && grid.Has(current)
      modifies this`lastPiece, this`lastLookDir, this`cachedItems, this`cacheVisited,
               this`currentCategoryIndex, this`currentItemIndex, this`spoken
      ensures Valid()
      ensures lastPiece == Some(current) && lastLookDir == look
      ensures pageUp || pageDown || end ==>
                if Some(current) == old(lastPiece) && look == old(lastLookDir) && old(cachedItems) != map[]
                then cachedItems == old(cachedItems)
                else IsBuilt(grid, cachedItems, current, look, visited)
      ensures var moved := Some(current) != old(lastPiece) || look != old(lastLookDir);
              var category := if moved then 0 else old(currentCategoryIndex);
              var item := if moved then 0 else old(currentItemIndex);
              && currentCategoryIndex == KeyCategory(category, ctrl, pageUp, pageDown)
              && (!(pageUp || pageDown || end) ==>
                    && spoken == old(spoken) && currentItemIndex == item
                    && cachedItems == if moved then map[] else old(cachedItems))
              && (ctrl && pageUp ==> CategoryCycled(category, -1, old(spoken)))
              && (ctrl && !pageUp && pageDown ==> CategoryCycled(category, 1, old(spoken)))
              && (!ctrl && pageUp ==> ItemCycled(category, item, -1, old(spoken)))
              && (!ctrl && !pageUp && pageDown ==> ItemCycled(category, item, 1, old(spoken)))
              && (!pageUp && !pageDown && end ==> currentItemIndex == item && DirectionsSaid(old(spoken)))
    {
      var moved := Track(Some(current), look);
      label Tracked:
      HandleKeys(ctrl, pageUp, pageDown, end, visited);
      KeyCategoryCases(old@Tracked(currentCategoryIndex), ctrl, pageUp, pageDown, currentCategoryIndex);
    }

    /**
     * The movement check of Update: when the piece or the facing differs
     * from the last frame's, invalidate the cache; record both.
     */
    method Track(currentPiece: Option<Piece>, look: int) returns (moved: bool)
      requires Valid() && InRange(currentPiece, |grid.cells|)
      modifies this`lastPiece, this`lastLookDir, this`cachedItems, this`currentCategoryIndex, this`currentItemIndex
      ensures Valid()
      ensures moved == (currentPiece != old(lastPiece) || look != old(lastLookDir))
      ensures lastPiece == currentPiece && lastLookDir == look
      ensures moved ==> cachedItems == map[] && currentCategoryIndex == 0 && currentItemIndex == 0
      ensures !moved ==> && cachedItems == old(cachedItems) && currentCategoryIndex == old(currentCategoryIndex)
                         && currentItemIndex == old(currentItemIndex)
    {
      moved := currentPiece != lastPiece || look != lastLookDir;
      if moved {
        InvalidateCache();
        lastPiece := currentPiece;
        lastLookDir := look;
      }
    }

    /**
     * The key dispatch of Update, first match wins: Ctrl+PageUp and
     * Ctrl+PageDown cycle the category back and forth, PageUp and PageDown
     * without Ctrl cycle the item, End asks for directions.
     */
    method HandleKeys(ctrl: bool, pageUp: bool, pageDown: bool, end: bool, visited: set<Piece>)
      requires Valid() && hasGameManager
      modifies this`cachedItems, this`cacheVisited, this`currentCategoryIndex, this`currentItemIndex, this`spoken
      ensures Valid()
      ensures !(pageUp || pageDown || end) ==>
                && cachedItems == old(cachedItems) && spoken == old(spoken)
                && currentCategoryIndex == old(currentCategoryIndex) && currentItemIndex == old(currentItemIndex)
      ensures pageUp || pageDown || end ==> Refreshed(old(cachedItems), cachedItems, visited)
      ensures ctrl && pageUp ==> CategoryCycled(old(currentCategoryIndex), -1, old(spoken))
      ensures ctrl && !pageUp && pageDown ==> CategoryCycled(old(currentCategoryIndex), 1, old(spoken))
      ensures !ctrl && pageUp ==> ItemCycled(old(currentCategoryIndex), old(currentItemIndex), -1, old(spoken))
      ensures !ctrl && !pageUp && pageDown ==> ItemCycled(old(currentCategoryIndex), old(currentItemIndex), 1, old(spoken))
      ensures !pageUp && !pageDown && end ==>
                && currentCategoryIndex == old(currentCategoryIndex) && currentItemIndex == old(currentItemIndex)
                && DirectionsSaid(old(spoken))
    {
      if ctrl && pageUp {
        CycleCategory(-1, visited);
      } else if ctrl && pageDown {
        CycleCategory(1, visited);
      } else if !ctrl && pageUp {
        CycleItem(-1, visited);
      } else if !ctrl && pageDown {
        CycleItem(1, visited);
      } else if end {
        AnnounceDirections(visited);
      }
    }

    /** Clear the cache and create an empty list for every category, in cycling order. */
    method CreateLists()
      modifies this`cachedItems
      ensures cachedItems == EmptyCache()
    {
      cachedItems := map[];
      for i := 0 to |AllCategories|
        invariant cachedItems.Keys == set j | 0 <= j < i :: AllCategories[j]
        invariant forall c | c in cachedItems :: cachedItems[c] == []
      {
        cachedItems := cachedItems[AllCategories[i] := []];
      }
      EmptyCacheComplete();
      forall c: NavCategory ensures c in cachedItems {
        match c
        case Exits => assert c == AllCategories[0];
        case NPCs => assert c == AllCategories[1];
        case Enemies => assert c == AllCategories[2];
        case Interactables => assert c == AllCategories[3];
        case Scenery => assert c == AllCategories[4];
        case POIs => assert c == AllCategories[5];
      }
    }
  }
}
