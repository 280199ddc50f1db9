/**
 * The user-facing pathfinding handler: movement detection, target scanning
 * and cycling, turn-by-turn GPS guidance with off-route recalculation, and a
 * breadcrumb trail with junction tracking for retracing.
 *
 * The level's pieces are fixed for the handler's lifetime (`grid`); what the
 * game manager reports each frame (the player's piece and facing) and the
 * keys pressed this frame are parameters. Speech is appended to `spoken`.
 */
module Pathfinding {
  import opened Wrappers
  import opened Grid
  import opened Messages
  import opened Direction
  import opened RoomScanner
  import opened Routes
  import opened Pathfinder

  const MaxBreadcrumbs := 200
  const JunctionExitThreshold := 3

  function Min(a: int, b: int): int {
    if a <= b then a else b
  }

  /** `crumbs` holds the `n` most recent entries of `trail` (all of them when there are fewer). */
  predicate MostRecent(crumbs: seq<Piece>, trail: seq<Piece>, n: nat) {
    |crumbs| == Min(|trail|, n) && crumbs == trail[|trail| - |crumbs|..]
  }

  /**
   * Appending a piece to the most recent `n` and then dropping the oldest
   * entry when there are more than `n` gives the most recent `n` of the
   * longer trail.
   */
  lemma MostRecentPush(crumbs: seq<Piece>, trail: seq<Piece>, n: nat, p: Piece, next: seq<Piece>)
    requires n >= 1 && MostRecent(crumbs, trail, n)
    requires next == if |crumbs + [p]| > n then (crumbs + [p])[1..] else crumbs + [p]
    ensures MostRecent(next, trail + [p], n)
  {
    var t := trail + [p];
    var r := crumbs + [p];
    if |r| > n {
      assert |trail| >= n && |next| == n;
      forall k | 0 <= k < n ensures t[|t| - n..][k] == next[k] {
        if k < n - 1 {
          assert t[|t| - n + k] == trail[|trail| - n + 1 + k];
        }
      }
    } else {
      forall k | 0 <= k < |r| ensures t[|t| - |r|..][k] == r[k] {
        if k < |r| - 1 {
          assert t[|t| - |r| + k] == trail[|trail| - |r| + 1 + k];
        }
      }
    }
  }

  /** The pieces a trail has passed through. */
  ghost function Visited(trail: seq<Piece>): set<Piece>
  {
    if trail == [] then {} else Visited(trail[..|trail| - 1]) + {trail[|trail| - 1]}
  }

  lemma VisitedSnoc(trail: seq<Piece>, p: Piece)
    ensures Visited(trail + [p]) == Visited(trail) + {p}
  {
    assert (trail + [p])[..|trail|] == trail;
  }

  /** A piece was visited exactly when it occurs in the trail. */
  lemma {:induction false} VisitedMembers(trail: seq<Piece>, q: Piece)
    ensures q in Visited(trail) <==> q in trail
  {
    if trail != [] {
      var init := trail[..|trail| - 1];
      VisitedMembers(init, q);
      assert trail == init + [trail[|trail| - 1]];
    }
  }

  /** The breadcrumbs after adding `p`: appended, dropping the oldest beyond the cap. */
  function Pushed(crumbs: seq<Piece>, p: Piece): seq<Piece> {
    if |crumbs| + 1 > MaxBreadcrumbs then (crumbs + [p])[1..] else crumbs + [p]
  }

  /** Adding a visited piece keeps the breadcrumbs capped, visited and the most recent. */
  lemma PushedProps(crumbs: seq<Piece>, trail: seq<Piece>, visited: set<Piece>, p: Piece)
    requires |crumbs| <= MaxBreadcrumbs && forall i | 0 <= i < |crumbs| :: crumbs[i] in visited
    ensures |Pushed(crumbs, p)| <= MaxBreadcrumbs
    ensures forall i | 0 <= i < |Pushed(crumbs, p)| :: Pushed(crumbs, p)[i] in visited + {p}
    ensures |crumbs| == MaxBreadcrumbs ==> Pushed(crumbs, p) == crumbs[1..] + [p]
    ensures |crumbs| < MaxBreadcrumbs ==> Pushed(crumbs, p) == crumbs + [p]
    ensures MostRecent(crumbs, trail, MaxBreadcrumbs) ==> MostRecent(Pushed(crumbs, p), trail + [p], MaxBreadcrumbs)
  {
    PushedShape(crumbs, p);
    if MostRecent(crumbs, trail, MaxBreadcrumbs) {
      MostRecentPush(crumbs, trail, MaxBreadcrumbs, p, Pushed(crumbs, p));
    }
  }

  /** The capped push drops the oldest crumb exactly when the cap is reached, and adds only `p`. */
  lemma PushedShape(crumbs: seq<Piece>, p: Piece)
    requires |crumbs| <= MaxBreadcrumbs
    ensures |crumbs| == MaxBreadcrumbs ==> Pushed(crumbs, p) == crumbs[1..] + [p]
    ensures |crumbs| < MaxBreadcrumbs ==> Pushed(crumbs, p) == crumbs + [p]
    ensures |Pushed(crumbs, p)| <= MaxBreadcrumbs
    ensures forall i | 0 <= i < |Pushed(crumbs, p)| :: Pushed(crumbs, p)[i] == p || Pushed(crumbs, p)[i] in crumbs
  {
    if |crumbs| == MaxBreadcrumbs {
      assert (crumbs + [p])[1..] == crumbs[1..] + [p];
    }
  }

  /** The move from `p` in `dir` leads to a neighbour and no traversal rule blocks it. */
  predicate OpenTowards(g: Grid, p: Piece, dir: int)
    requires g.Valid() && g.Has(p)
  {
    GetAdjacentPiece(g, Some(p), dir).Some? && !IsDirectionBlocked(g, p, GetAdjacentPiece(g, Some(p), dir), dir)
  }

  /** How many of the directions below `n` are open from `p`. */
  function OpenCount(g: Grid, p: Piece, n: nat): nat
    requires g.Valid() && g.Has(p)
  {
    if n == 0 then 0 else OpenCount(g, p, n - 1) + (if OpenTowards(g, p, n - 1) then 1 else 0)
  }

  /** At most `n` of the first `n` directions can be open. */
  lemma {:induction false} OpenCountBound(g: Grid, p: Piece, n: nat)
    requires g.Valid() && g.Has(p)
    ensures OpenCount(g, p, n) <= n
  {
    if n > 0 {
      OpenCountBound(g, p, n - 1);
    }
  }

  /** How a target is announced: its kind, its name when it has one, and its distance. */
  function FormatTarget(target: ReachableTarget): (m: Msg)
    ensures m.key == PathTargetItem <==> target.name != ""
    ensures m.key == PathTargetUnnamed <==> target.name == ""
    ensures Sub(Plain(Poi(target.typeKey))) in m.args && Num(target.distance) in m.args
    ensures Text(target.name) in m.args <==> target.name != ""
  {
    var typeName := Plain(Poi(target.typeKey));
    if target.name != "" then Msg(PathTargetItem, [Sub(typeName), Text(target.name), Num(target.distance)])
    else Msg(PathTargetUnnamed, [Sub(typeName), Num(target.distance)])
  }

  /** The short name of a target for route and arrival messages: its name, else its kind. */
  function FormatTargetName(target: ReachableTarget): (a: Arg)
    ensures target.name != "" ==> a == Text(target.name)
    ensures target.name == "" ==> a == Sub(Plain(Poi(target.typeKey)))
  {
    if target.name != "" then Text(target.name) else Sub(Plain(Poi(target.typeKey)))
  }

  /** What a scan says once its targets are found: that there are none, or how many there are and the first. */
  function FoundSpeech(found: seq<ReachableTarget>): seq<Speech> {
    if found == [] then [Say([Plain(PathNoTargets)])]
    else [Say([Msg(PathTargetsSummary, [Num(|found|)]), FormatTarget(found[0])])]
  }

  /**
   * Taking the next step of a route from where its first `i` steps lead
   * ends where its first `i + 1` steps lead.
   */
  lemma FollowStep(g: Grid, start: Piece, route: seq<int>, i: nat, at: Piece, next: Piece)
    requires g.Valid() && g.Has(start) && i < |route|
    requires Follow(g, start, route[..i]) == Some(at)
    requires GetAdjacentPiece(g, Some(at), route[i]) == Some(next)
    ensures Follow(g, start, route[..i + 1]) == Some(next)
  {
    assert route[..i + 1] == route[..i] + [route[i]];
    FollowSnoc(g, start, route[..i], route[i]);
  }

  /**
   * While the guidance is in step, the route's last matching move lands on
   * the route's target: a completed route is always an arrival.
   */
  lemma InStepLastStepArrives(g: Grid, start: Piece, route: seq<int>, at: Piece, next: Piece, target: Piece)
    requires g.Valid() && g.Has(start) && |route| > 0
    requires Follow(g, start, route[..|route| - 1]) == Some(at)
    requires GetAdjacentPiece(g, Some(at), route[|route| - 1]) == Some(next)
    requires Follow(g, start, route) == Some(target)
    ensures next == target
  {
    FollowStep(g, start, route, |route| - 1, at, next);
    assert route[..|route|] == route;
  }

  /** The move from `last` onto `newPiece` is step `step` of `route`. */
  predicate StepMatches(g: Grid, last: Piece, route: seq<int>, step: int, newPiece: Piece)
    requires g.Valid() && g.Has(last)
  {
    0 <= step < |route| && GetAdjacentPiece(g, Some(last), route[step]) == Some(newPiece)
  }

  /** The stored route of a handler: its steps, how far along, where it leads and starts, and the target's name. */
  datatype RouteState = RouteState(route: Option<seq<int>>, step: int, target: Option<Piece>, start: Piece, name: Arg)

  class PathfindHandler {
    /** The level: every piece the game manager can report. */
    const grid: Grid

    var hasGameManager: bool
    var visitedRooms: set<Piece>
    var lastMapPiece: Option<Piece>
    var hasInitialPiece: bool
    var targets: Option<seq<ReachableTarget>>
    var targetIndex: int
    var pathfindActive: bool
    var currentRoute: Option<seq<int>>
    var routeStepIndex: int
    var routeTargetPiece: Option<Piece>
    /** The target's name as a format argument; a null name formats as the empty string. */
    var routeTargetName: Arg
    var gpsActive: bool
    var breadcrumbs: seq<Piece>
    var lastJunction: Option<Piece>
    var lastAnnouncement: seq<Msg>
    /** Everything handed to the screen reader, oldest first. */
    var spoken: seq<Speech>

    /** Every piece added to the breadcrumb trail since the last reset, oldest first. */
    ghost var trail: seq<Piece>
    /** Where the stored route starts. */
    ghost var routeStart: Piece

    /**
     * The trail stays inside the level, the visited set is every piece of
     * the trail, the breadcrumbs are capped and visited, and the last
     * junction is a visited piece.
     */
    ghost predicate TrailOk()
      reads this`trail, this`visitedRooms, this`breadcrumbs, this`lastJunction
      requires grid.Valid()
    {
      && (forall q | q in visitedRooms :: grid.Has(q))
      && visitedRooms == Visited(trail)
      && |breadcrumbs| <= MaxBreadcrumbs
      && (forall i | 0 <= i < |breadcrumbs| :: breadcrumbs[i] in visitedRooms)
      && InRange(lastJunction, |grid.cells|)
      && (lastJunction.Some? ==> lastJunction.value in visitedRooms)
    }

    /**
     * The selected index lies within the target list (or is 0), the targets
     * are pieces of the level, and selection is active only over a non-empty
     * list.
     */
    ghost predicate SelectionOk()
      reads this`targetIndex, this`targets, this`pathfindActive
      requires grid.Valid()
    {
      && 0 <= targetIndex
      && (targetIndex == 0 || (targets.Some? && targetIndex < |targets.value|))
      && (targets.Some? ==> forall t | t in targets.value :: grid.Has(t.piece))
      && (pathfindActive ==> targets.Some? && targets.value != [])
    }

    /** A stored route replays to the route's target, and the step index lies within it. */
    ghost predicate RouteOk()
      reads this`routeTargetPiece, this`routeStepIndex, this`currentRoute, this`routeStart
      requires grid.Valid()
    {
      && InRange(routeTargetPiece, |grid.cells|)
      && 0 <= routeStepIndex
      && (currentRoute.Some? ==>
            && routeStepIndex <= |currentRoute.value|
            && routeTargetPiece.Some? && grid.Has(routeStart)
            && Follow(grid, routeStart, currentRoute.value) == Some(routeTargetPiece.value))
    }

    ghost predicate Valid()
      reads this
    {
      && grid.Valid()
      && InRange(lastMapPiece, |grid.cells|)
      && (hasInitialPiece <==> lastMapPiece.Some?)
      && TrailOk() && SelectionOk() && RouteOk()
    }

    /**
     * `at` is where the stored route leads after its first `routeStepIndex`
     * steps: the guidance is in step with a player standing on `at`.
     */
    ghost predicate OnTrack(at: Piece)
      reads this`currentRoute, this`routeStart, this`routeStepIndex
      requires grid.Valid()
    {
      && currentRoute.Some? && grid.Has(routeStart)
      && 0 <= routeStepIndex <= |currentRoute.value|
      && Follow(grid, routeStart, currentRoute.value[..routeStepIndex]) == Some(at)
    }

    /** The guidance is in step with the piece the player was last seen on. */
    ghost predicate InStep()
      reads this`lastMapPiece, this`currentRoute, this`routeStart, this`routeStepIndex
      requires grid.Valid()
    {
      lastMapPiece.Some? && OnTrack(lastMapPiece.value)
    }

    /** The stored route as a value, for saying what an operation left alone. */
    ghost function RouteSnapshot(): RouteState
      reads this`currentRoute, this`routeStepIndex, this`routeTargetPiece, this`routeStart, this`routeTargetName
    {
      RouteState(currentRoute, routeStepIndex, routeTargetPiece, routeStart, routeTargetName)
    }

    /**
     * The outcome of recalculating from `from`, with `said` the speech so
     * far: nothing without a target; otherwise "off route", then "no route"
     * with the route dropped exactly when no route within the default depth
     * reaches the target, else a shortest route from `from` to the same
     * target, started at step 0 and announced.
     */
    ghost predicate Recalculated(said: seq<Speech>, from: Piece, look: int)
      reads this`currentRoute, this`routeStepIndex, this`routeTargetPiece, this`routeStart, this`routeTargetName, this`spoken
      requires grid.Valid() && grid.Has(from)
    {
      if routeTargetPiece.None? then
        currentRoute.None? && spoken == said
      else if from != routeTargetPiece.value && !ReachableWithin(grid, from, routeTargetPiece.value, DefaultMaxDepth, true) then
        currentRoute.None? && spoken == said + [SayQueued([Plain(PathOffRoute)]), SayQueued([Plain(PathNoRoute)])]
      else
        && currentRoute.Some? && routeStepIndex == 0 && routeStart == from
        && Shortest(grid, from, currentRoute.value, routeTargetPiece.value, true)
        && |currentRoute.value| <= DefaultMaxDepth
        && OnTrack(from)
        && spoken == said + [SayQueued([Plain(PathOffRoute)]),
                             SayQueued([Msg(PathRoute, [routeTargetName, Joined(RouteDescription(currentRoute.value, look))])])]
    }

    /**
     * The outcome of asking for a route from `from` to `target`, with
     * `before` the stored route and `said` the speech so far: "no route"
     * with the stored route (and the target's name) untouched exactly when
     * no route within the default depth reaches the target, else a shortest
     * route from `from` to the target, stored at step 0 and announced with
     * the target's name.
     */
    ghost predicate Routed(before: RouteState, said: seq<Speech>, from: Piece, target: ReachableTarget, look: int)
      reads this`currentRoute, this`routeStepIndex, this`routeTargetPiece, this`routeStart, this`routeTargetName, this`spoken
      requires grid.Valid() && grid.Has(from) && grid.Has(target.piece)
    {
      if from != target.piece && !ReachableWithin(grid, from, target.piece, DefaultMaxDepth, true) then
        RouteSnapshot() == before && spoken == said + [Say([Plain(PathNoRoute)])]
      else
        && currentRoute.Some? && routeStepIndex == 0
        && routeTargetPiece == Some(target.piece)
        && routeTargetName == FormatTargetName(target)
        && Shortest(grid, from, currentRoute.value, target.piece, true)
        && |currentRoute.value| <= DefaultMaxDepth
        && (currentRoute.value == [] <==> from == target.piece)
        && OnTrack(from)
        && spoken == said + [Say([Msg(PathRoute, [routeTargetName, Joined(RouteDescription(currentRoute.value, look))])])]
    }

    /**
     * The outcome of moving from `last` onto `newPiece` while following
     * `route` at step `step`, with `said` the speech so far: reaching the
     * target is an arrival; taking the route's next step advances the step
     * and queues the next instruction, or is an arrival when the steps run
     * out; any other move recalculates.
     */
    ghost predicate GpsMoved(said: seq<Speech>, route: seq<int>, step: int, last: Piece, newPiece: Piece, look: int)
      reads this`currentRoute, this`routeStepIndex, this`routeTargetPiece, this`routeStart, this`routeTargetName, this`spoken
      requires grid.Valid() && grid.Has(last) && grid.Has(newPiece)
    {
      if routeTargetPiece == Some(newPiece) || (StepMatches(grid, last, route, step, newPiece) && step + 1 >= |route|) then
        && currentRoute.None? && routeStepIndex == 0
        && spoken == said + [SayQueued([Msg(PathArrived, [routeTargetName])])]
      else if StepMatches(grid, last, route, step, newPiece) then
        && currentRoute == Some(route) && routeStepIndex == step + 1
        && spoken == said + [SayQueued([Msg(PathGpsNext, [Sub(GetNextGPSInstruction(route[step + 1], look))])])]
      else
        Recalculated(said, newPiece, look)
    }

    /** The target the selection index points at. */
    function SelectedTarget(): (t: ReachableTarget)
      reads this
      requires Valid() && targets.Some? && targets.value != []
      ensures t in targets.value && grid.Has(t.piece)
    {
      targets.value[targetIndex]
    }

    constructor(g: Grid)
      requires g.Valid()
      ensures Valid() && grid == g
      ensures !hasGameManager && lastMapPiece.None? && !hasInitialPiece
      ensures targets.None? && targetIndex == 0 && !pathfindActive
      ensures currentRoute.None? && routeStepIndex == 0 && routeTargetPiece.None? && !gpsActive
      ensures breadcrumbs == [] && visitedRooms == {} && lastJunction.None? && trail == []
      ensures MostRecent(breadcrumbs, trail, MaxBreadcrumbs)
      ensures lastAnnouncement == [] && spoken == []
    {
      grid := g;
      hasGameManager := false;
      visitedRooms := {};
      lastMapPiece := None;
      hasInitialPiece := false;
      targets := None;
      targetIndex := 0;
      pathfindActive := false;
      currentRoute := None;
      routeStepIndex := 0;
      routeTargetPiece := None;
      routeTargetName := Text("");
      gpsActive := false;
      breadcrumbs := [];
      lastJunction := None;
      lastAnnouncement := [];
      spoken := [];
      trail := [];
      routeStart := 0;
    }

    /** The game manager has been found. */
    method SetGameManager()
      requires Valid()
      modifies this`hasGameManager
      ensures Valid() && hasGameManager
    {
      hasGameManager := true;
    }

    /** Speak `text`, interrupting, and remember it for repeating. */
    method Announce(text: seq<Msg>)
      requires Valid()
      modifies this`lastAnnouncement, this`spoken
      ensures Valid()
      ensures lastAnnouncement == text && spoken == old(spoken) + [Say(text)]
    {
      lastAnnouncement := text;
      spoken := spoken + [Say(text)];
    }

    /** Whether the piece has been visited this scene: it was once added to the trail. */
    function IsVisited(piece: Option<Piece>): (r: bool)
      requires Valid()
      reads this
      ensures r <==> piece.Some? && piece.value in trail
    {
      if piece.None? then false
      else
        VisitedMembers(trail, piece.value);
        piece.value in visitedRooms
    }

    /** Repeat the last announcement, if there was one. */
    method RepeatLastAnnouncement()
      requires Valid()
      modifies this`spoken
      ensures Valid()
      ensures lastAnnouncement == [] ==> spoken == old(spoken)
      ensures lastAnnouncement != [] ==> spoken == old(spoken) + [Say(lastAnnouncement)]
    {
      if lastAnnouncement != [] {
        spoken := spoken + [Say(lastAnnouncement)];
      }
    }

    /** Flip GPS mode and say which way it went; the stored route is kept. */
    method ToggleGPS()
      requires Valid()
      modifies this`gpsActive, this`lastAnnouncement, this`spoken
      ensures Valid()
      ensures gpsActive == !old(gpsActive)
      ensures lastAnnouncement == [Plain(if gpsActive then PathGpsOn else PathGpsOff)]
      ensures spoken == old(spoken) + [Say(lastAnnouncement)]
    {
      gpsActive := !gpsActive;
      if gpsActive {
        Announce([Plain(PathGpsOn)]);
      } else {
        Announce([Plain(PathGpsOff)]);
      }
    }

    /** The selection half of Reset. */
    method ClearSelection()
      modifies this`targets, this`targetIndex, this`pathfindActive
      ensures targets.None? && targetIndex == 0 && !pathfindActive
    {
      targets := None;
      targetIndex := 0;
      pathfindActive := false;
    }

    /** The route half of Reset. */
    method ClearRoute()
      modifies this`currentRoute, this`routeStepIndex, this`routeTargetPiece, this`routeTargetName, this`gpsActive
      ensures currentRoute.None? && routeStepIndex == 0 && routeTargetPiece.None? && routeTargetName == Text("")
      ensures !gpsActive
    {
      currentRoute := None;
      routeStepIndex := 0;
      routeTargetPiece := None;
      routeTargetName := Text("");
      gpsActive := false;
    }

    /** The breadcrumb half of Reset. */
    method ClearTrail()
      modifies this`breadcrumbs, this`visitedRooms, this`lastJunction, this`trail
      ensures breadcrumbs == [] && visitedRooms == {} && lastJunction.None? && trail == []
    {
      breadcrumbs := [];
      visitedRooms := {};
      lastJunction := None;
      trail := [];
    }

    /** Forget everything (on a scene change): the state of a fresh handler for the same level. */
    method Reset()
      requires grid.Valid()
      modifies this
      ensures !hasGameManager && lastMapPiece.None? && !hasInitialPiece
      ensures targets.None? && targetIndex == 0 && !pathfindActive
      ensures currentRoute.None? && routeStepIndex == 0 && routeTargetPiece.None? && routeTargetName == Text("")
      ensures !gpsActive
      ensures breadcrumbs == [] && visitedRooms == {} && lastJunction.None? && trail == []
      ensures MostRecent(breadcrumbs, trail, MaxBreadcrumbs)
      ensures lastAnnouncement == [] && spoken == old(spoken)
      ensures Valid()
    {
      hasGameManager := false;
      lastMapPiece := None;
      hasInitialPiece := false;
      ClearSelection();
      ClearRoute();
      ClearTrail();
      lastAnnouncement := [];
    }

    /** CountOpenExits: how many directions lead to a neighbour the traversal rules let the player enter. */
    method CountOpenExits(piece: Piece) returns (count: int)
      requires grid.Valid() && grid.Has(piece)
      ensures count == OpenCount(grid, piece, 4)
      ensures 0 <= count <= 4
    {
      count := 0;
      for dir := 0 to 4
        invariant count == OpenCount(grid, piece, dir)
      {
        var adjacent := GetAdjacentPiece(grid, Some(piece), dir);
        if adjacent.None? {
          continue;
        }
        if !IsDirectionBlocked(grid, piece, adjacent, dir) {
          count := count + 1;
        }
      }
      OpenCountBound(grid, piece, 4);
    }

    /** The visited-set and breadcrumb half of AddBreadcrumb. */
    method RecordVisit(p: Piece)
      requires Valid() && grid.Has(p)
      modifies this`visitedRooms, this`breadcrumbs, this`trail
      ensures Valid()
      ensures trail == old(trail) + [p] && visitedRooms == old(visitedRooms) + {p}
      ensures |old(breadcrumbs)| == MaxBreadcrumbs ==> breadcrumbs == old(breadcrumbs)[1..] + [p]
      ensures |old(breadcrumbs)| < MaxBreadcrumbs ==> breadcrumbs == old(breadcrumbs) + [p]
      ensures old(MostRecent(breadcrumbs, trail, MaxBreadcrumbs)) ==> MostRecent(breadcrumbs, trail, MaxBreadcrumbs)
    {
      var next := Pushed(breadcrumbs, p);
      var rooms := visitedRooms + {p};
      PushedProps(breadcrumbs, trail, visitedRooms, p);
      VisitedSnoc(trail, p);
      assert forall q | q in rooms :: grid.Has(q);
      assert lastJunction.Some? ==> lastJunction.value in rooms;
      visitedRooms, trail, breadcrumbs := rooms, trail + [p], next;
    }

    /**
     * AddBreadcrumb: record a piece as visited and on the trail, dropping the
     * oldest breadcrumb beyond the cap, and remember it as the last junction
     * when it has at least three open exits (only while the game manager is
     * known).
     */
    method AddBreadcrumb(piece: Option<Piece>)
      requires Valid() && InRange(piece, |grid.cells|)
      modifies this`visitedRooms, this`breadcrumbs, this`trail, this`lastJunction
      ensures Valid()
      ensures piece.None? ==> trail == old(trail) && breadcrumbs == old(breadcrumbs) && lastJunction == old(lastJunction)
      ensures piece.Some? ==> trail == old(trail) + [piece.value]
      ensures piece.Some? ==> visitedRooms == old(visitedRooms) + {piece.value}
      ensures piece.Some? && |old(breadcrumbs)| == MaxBreadcrumbs ==> breadcrumbs == old(breadcrumbs)[1..] + [piece.value]
      ensures piece.Some? && |old(breadcrumbs)| < MaxBreadcrumbs ==> breadcrumbs == old(breadcrumbs) + [piece.value]
      ensures old(MostRecent(breadcrumbs, trail, MaxBreadcrumbs)) ==> MostRecent(breadcrumbs, trail, MaxBreadcrumbs)
      ensures piece.Some? && hasGameManager && OpenCount(grid, piece.value, 4) >= JunctionExitThreshold ==>
                lastJunction == piece
      ensures piece.None? || !hasGameManager || OpenCount(grid, piece.value, 4) < JunctionExitThreshold ==>
                lastJunction == old(lastJunction)
    {
      if piece.None? {
        return;
      }
      var p := piece.value;
      RecordVisit(p);
      NoteJunction(p);
    }

    /** The junction half of AddBreadcrumb: a visited piece with at least three open exits becomes the last junction. */
    method NoteJunction(p: Piece)
      requires Valid() && grid.Has(p) && p in visitedRooms
      modifies this`lastJunction
      ensures Valid()
      ensures hasGameManager && OpenCount(grid, p, 4) >= JunctionExitThreshold ==> lastJunction == Some(p)
      ensures !hasGameManager || OpenCount(grid, p, 4) < JunctionExitThreshold ==> lastJunction == old(lastJunction)
    {
      if hasGameManager {
        var openExits := CountOpenExits(p);
        if openExits >= JunctionExitThreshold {
          lastJunction := Some(p);
        }
      }
    }
    // -------------------------------------------------------------------------
    // Target scanning, cycling and selection
    // -------------------------------------------------------------------------

    /**
     * The outcome of scanning from `from`, with `said` the speech so far:
     * every target reachable within the default depth is listed, nearest
     * first, each with a shortest route; the first is selected, selection is
     * active when there is one, and the scan is announced.
     */
    ghost predicate Scanned(said: seq<Speech>, from: Piece)
      reads this`targets, this`targetIndex, this`pathfindActive, this`spoken
      requires grid.Valid() && grid.Has(from)
    {
      && targets.Some? && targetIndex == 0 && pathfindActive == (targets.value != [])
      && SortedByDistance(targets.value) && NoRepeats(targets.value)
      && ValidTargets(grid, from, DefaultMaxDepth, targets.value)
      && (forall t | TargetOf(grid, from, t, 0, []) :: t in targets.value)
      && (forall t | t in targets.value :: Shortest(grid, from, t.path, t.piece, true))
      && (forall q: Piece, kind | grid.Has(q) && IsTarget(grid.cells[q], kind) &&
                                   ReachableWithin(grid, from, q, DefaultMaxDepth, true) ::
            HasTarget(targets.value, q, kind))
      && spoken == said + [Say([Plain(PathScanning)])] + FoundSpeech(targets.value)
    }

    /**
     * The outcome of cycling from selection `index`, with `said` the speech
     * so far: without targets nothing changes; otherwise the next target,
     * wrapping round to the first, is selected and announced.
     */
    ghost predicate Cycled(index: int, said: seq<Speech>)
      reads this`targets, this`targetIndex, this`spoken
    {
      if targets.None? || targets.value == [] then
        targetIndex == index && spoken == said
      else
        && targetIndex == (index + 1) % |targets.value|
        && spoken == said + [Say([FormatTarget(targets.value[targetIndex])])]
    }

    /**
     * The outcome of choosing the selected target from `from`, with `before`
     * the stored route and `said` the speech so far: "here" with the route
     * untouched when the target was found where its scan started, else the
     * route request.
     */
    ghost predicate Selected(before: RouteState, said: seq<Speech>, from: Piece, look: int)
      reads this
      requires Valid() && grid.Has(from) && targets.Some? && targets.value != []
    {
      if SelectedTarget().distance == 0 then
        RouteSnapshot() == before && spoken == said + [Say([Plain(NavHere)])]
      else
        Routed(before, said, from, SelectedTarget(), look)
    }

    /** Store a fresh target list with the selection at its first entry. */
    method StoreTargets(found: seq<ReachableTarget>)
      requires Valid() && forall t | t in found :: grid.Has(t.piece)
      modifies this`targets, this`targetIndex, this`pathfindActive
      ensures Valid() && targets == Some(found) && targetIndex == 0 && pathfindActive == (found != [])
    {
      targets := Some(found);
      targetIndex := 0;
      pathfindActive := found != [];
    }

    /** Store a fresh target list with the selection at its first entry, and announce what was found. */
    method PresentTargets(found: seq<ReachableTarget>)
      requires Valid() && forall t | t in found :: grid.Has(t.piece)
      modifies this`targets, this`targetIndex, this`pathfindActive, this`lastAnnouncement, this`spoken
      ensures Valid() && targets == Some(found) && targetIndex == 0 && pathfindActive == (found != [])
      ensures spoken == old(spoken) + FoundSpeech(found)
    {
      StoreTargets(found);
      Announce(if |found| == 0 then [Plain(PathNoTargets)]
               else [Msg(PathTargetsSummary, [Num(|found|)]), FormatTarget(found[0])]);
    }

    /** ScanForTargets: find every reachable target, store them nearest first with the first selected, and announce them. */
    method ScanForTargets(currentPiece: Piece)
      requires Valid() && grid.Has(currentPiece)
      modifies this`targets, this`targetIndex, this`pathfindActive, this`lastAnnouncement, this`spoken
      ensures Valid() && Scanned(old(spoken), currentPiece)
    {
      Announce([Plain(PathScanning)]);
      var found := FindAllReachable(grid, Some(currentPiece), DefaultMaxDepth);
      ValidTargetsInLevel(grid, currentPiece, DefaultMaxDepth, found);
      PresentTargets(found);
    }

    /** CycleTarget: move the selection to the next target, wrapping round, and announce it. */
    method CycleTarget()
      requires Valid()
      modifies this`targetIndex, this`lastAnnouncement, this`spoken
      ensures Valid() && Cycled(old(targetIndex), old(spoken))
    {
      if targets.None? || |targets.value| == 0 {
        return;
      }
      targetIndex := (targetIndex + 1) % |targets.value|;
      Announce([FormatTarget(targets.value[targetIndex])]);
    }

    /**
     * HandlePathfindKey: with the game manager and the player's piece known,
     * the first press scans for targets and later presses cycle through them.
     */
    method HandlePathfindKey(currentPiece: Option<Piece>)
      requires Valid() && InRange(currentPiece, |grid.cells|)
      modifies this`targets, this`targetIndex, this`pathfindActive, this`lastAnnouncement, this`spoken
      ensures Valid()
      ensures !hasGameManager || currentPiece.None? ==> unchanged(this)
      ensures hasGameManager && currentPiece.Some? && !old(pathfindActive) ==> Scanned(old(spoken), currentPiece.value)
      ensures hasGameManager && currentPiece.Some? && old(pathfindActive) ==>
                targets == old(targets) && pathfindActive && Cycled(old(targetIndex), old(spoken))
    {
      if !hasGameManager || currentPiece.None? {
        return;
      }
      if !pathfindActive {
        ScanForTargets(currentPiece.value);
      } else {
        CycleTarget();
      }
    }

    /** Store a route from `from` to `target` as the one to follow, at its first step. */
    method StoreRoute(route: seq<int>, from: Piece, target: Piece)
      requires Valid() && grid.Has(from) && grid.Has(target) && RouteFrom(grid, from, route, target, true)
      modifies this`currentRoute, this`routeStepIndex, this`routeTargetPiece, this`routeStart
      ensures Valid() && OnTrack(from)
      ensures currentRoute == Some(route) && routeStepIndex == 0 && routeTargetPiece == Some(target)
      ensures routeStart == from
    {
      RouteReplays(grid, from, route, target, true);
      currentRoute := Some(route);
      routeStepIndex := 0;
      routeTargetPiece := Some(target);
      routeStart := from;
      assert route[..0] == [];
    }

    /**
     * The route half of SelectCurrentTarget: "no route" when no route reaches
     * the target, otherwise a fresh route from `from` stored at step 0 and
     * announced with the target's name.
     */
    method RouteToTarget(from: Piece, target: ReachableTarget, look: int)
      requires Valid() && grid.Has(from) && grid.Has(target.piece)
      modifies this`currentRoute, this`routeStepIndex, this`routeTargetPiece,
               this`routeTargetName, this`routeStart, this`lastAnnouncement, this`spoken
      ensures Valid() && Routed(old(RouteSnapshot()), old(spoken), from, target, look)
    {
      var path := FindPath(grid, Some(from), Some(target.piece), DefaultMaxDepth);
      if path.None? {
        Announce([Plain(PathNoRoute)]);
        return;
      }
      routeTargetName := FormatTargetName(target);
      StoreRoute(path.value, from, target.piece);
      var route := BuildRouteDescription(path, look);
      Announce([Msg(PathRoute, [routeTargetName, Joined(route)])]);
    }

    /**
     * SelectCurrentTarget: end target selection and, for the selected target,
     * say "here" when it was found where its scan started, or ask for the
     * route to it from the player's piece.
     */
    method SelectCurrentTarget(currentPiece: Option<Piece>, look: int)
      requires Valid() && InRange(currentPiece, |grid.cells|)
      modifies this`pathfindActive, this`currentRoute, this`routeStepIndex, this`routeTargetPiece,
               this`routeTargetName, this`routeStart, this`lastAnnouncement, this`spoken
      ensures Valid() && !pathfindActive
      ensures targets.None? || targets.value == [] ==> unchanged(this)
      ensures targets.Some? && targets.value != [] && currentPiece.None? ==>
                RouteSnapshot() == old(RouteSnapshot()) && spoken == old(spoken)
      ensures targets.Some? && targets.value != [] && currentPiece.Some? ==>
                Selected(old(RouteSnapshot()), old(spoken), currentPiece.value, look)
    {
      if targets.None? || |targets.value| == 0 {
        return;
      }
      var target := targets.value[targetIndex];
      pathfindActive := false;
      if currentPiece.None? {
        return;
      }
      if target.distance == 0 {
        Announce([Plain(NavHere)]);
        return;
      }
      RouteToTarget(currentPiece.value, target, look);
    }

    // -------------------------------------------------------------------------
    // GPS
    // -------------------------------------------------------------------------

    /**
     * RecalculateRoute: after the player left the route, find a fresh route
     * from `fromPiece` to the same target. Without a target the route is
     * dropped silently; otherwise "off route" is queued, then either "no
     * route" (route dropped) or the fresh route, started at step 0.
     */
    method RecalculateRoute(fromPiece: Piece, look: int)
      requires Valid() && grid.Has(fromPiece)
      modifies this`currentRoute, this`routeStepIndex, this`routeTargetPiece, this`routeStart, this`spoken
      ensures Valid() && routeTargetPiece == old(routeTargetPiece)
      ensures Recalculated(old(spoken), fromPiece, look)
    {
      if routeTargetPiece.None? {
        currentRoute := None;
        return;
      }
      var newPath := FindPath(grid, Some(fromPiece), routeTargetPiece, DefaultMaxDepth);
      if newPath.None? {
        currentRoute := None;
        spoken := spoken + [SayQueued([Plain(PathOffRoute)]), SayQueued([Plain(PathNoRoute)])];
        return;
      }
      FollowFreshRoute(newPath.value, fromPiece, look);
    }

    /** The found-route half of RecalculateRoute: store the fresh route at step 0 and queue "off route" and the route. */
    method FollowFreshRoute(route: seq<int>, fromPiece: Piece, look: int)
      requires Valid() && grid.Has(fromPiece) && routeTargetPiece.Some?
      requires RouteFrom(grid, fromPiece, route, routeTargetPiece.value, true)
      modifies this`currentRoute, this`routeStepIndex, this`routeTargetPiece, this`routeStart, this`spoken
      ensures Valid() && OnTrack(fromPiece) && routeTargetPiece == old(routeTargetPiece)
      ensures currentRoute == Some(route) && routeStepIndex == 0 && routeStart == fromPiece
      ensures spoken == old(spoken) + [SayQueued([Plain(PathOffRoute)]),
                                       SayQueued([Msg(PathRoute, [routeTargetName, Joined(RouteDescription(route, look))])])]
    {
      StoreRoute(route, fromPiece, routeTargetPiece.value);
      var description := BuildRouteDescription(Some(route), look);
      spoken := spoken + [SayQueued([Plain(PathOffRoute)]), SayQueued([Msg(PathRoute, [routeTargetName, Joined(description)])])];
    }

    /**
     * HandleGPSMovement: the player moved from the last piece onto
     * `newPiece` while following a route: an arrival, the route's next step,
     * or a recalculation.
     */
    method HandleGPSMovement(newPiece: Piece, look: int)
      requires Valid() && grid.Has(newPiece) && currentRoute.Some? && lastMapPiece.Some?
      modifies this`currentRoute, this`routeStepIndex, this`routeTargetPiece, this`routeStart, this`spoken
      ensures Valid() && routeTargetPiece == old(routeTargetPiece)
      ensures GpsMoved(old(spoken), old(currentRoute.value), old(routeStepIndex), old(lastMapPiece.value), newPiece, look)
      ensures old(OnTrack(lastMapPiece.value)) && currentRoute.Some? ==> OnTrack(newPiece)
    {
      if Some(newPiece) == routeTargetPiece {
        spoken := spoken + [SayQueued([Msg(PathArrived, [routeTargetName])])];
        currentRoute := None;
        routeStepIndex := 0;
        return;
      }
      var route := currentRoute.value;
      if routeStepIndex < |route| {
        var expectedDir := route[routeStepIndex];
        var expectedPiece := GetAdjacentPiece(grid, lastMapPiece, expectedDir);
        if expectedPiece == Some(newPiece) {
          if OnTrack(lastMapPiece.value) {
            FollowStep(grid, routeStart, route, routeStepIndex, lastMapPiece.value, newPiece);
          }
          routeStepIndex := routeStepIndex + 1;
          if routeStepIndex >= |route| {
            spoken := spoken + [SayQueued([Msg(PathArrived, [routeTargetName])])];
            currentRoute := None;
            routeStepIndex := 0;
          } else {
            var nextDir := route[routeStepIndex];
            var instruction := GetNextGPSInstruction(nextDir, look);
            spoken := spoken + [SayQueued([Msg(PathGpsNext, [Sub(instruction)])])];
          }
          return;
        }
      }
      RecalculateRoute(newPiece, look);
    }

    /** With GPS on and a route stored, follow the route onto `newPiece`; otherwise nothing changes. */
    method FollowRoute(newPiece: Piece, look: int)
      requires Valid() && grid.Has(newPiece) && lastMapPiece.Some?
      modifies this`currentRoute, this`routeStepIndex, this`routeTargetPiece, this`routeStart, this`spoken
      ensures Valid() && routeTargetPiece == old(routeTargetPiece)
      ensures !gpsActive || old(currentRoute).None? ==> unchanged(this)
      ensures gpsActive && old(currentRoute).Some? ==>
                GpsMoved(old(spoken), old(currentRoute).value, old(routeStepIndex), old(lastMapPiece).value, newPiece, look)
      ensures gpsActive && old(OnTrack(lastMapPiece.value)) && currentRoute.Some? ==> OnTrack(newPiece)
    {
      if gpsActive && currentRoute.Some? {
        HandleGPSMovement(newPiece, look);
      }
    }

    /**
     * OnPlayerMoved: record the new piece on the trail, end target
     * selection, and, with GPS on and a route stored, follow the route.
     */
    method OnPlayerMoved(newPiece: Piece, look: int)
      requires Valid() && grid.Has(newPiece) && lastMapPiece.Some?
      modifies this`visitedRooms, this`breadcrumbs, this`trail, this`lastJunction, this`pathfindActive,
               this`currentRoute, this`routeStepIndex, this`routeTargetPiece, this`routeStart, this`spoken
      ensures Valid() && !pathfindActive && routeTargetPiece == old(routeTargetPiece)
      ensures trail == old(trail) + [newPiece] && visitedRooms == old(visitedRooms) + {newPiece}
      ensures !gpsActive || old(currentRoute).None? ==> RouteSnapshot() == old(RouteSnapshot()) && spoken == old(spoken)
      ensures gpsActive && old(currentRoute).Some? ==>
                GpsMoved(old(spoken), old(currentRoute).value, old(routeStepIndex), old(lastMapPiece).value, newPiece, look)
      ensures gpsActive && old(OnTrack(lastMapPiece.value)) && currentRoute.Some? ==> OnTrack(newPiece)
    {
      AddBreadcrumb(Some(newPiece));
      if pathfindActive {
        pathfindActive := false;
      }
      FollowRoute(newPiece, look);
    }

    /** The first frame with a known piece: remember it and start the trail with it. */
    method RecordFirstPiece(p: Piece)
      requires Valid() && grid.Has(p) && !hasInitialPiece
      modifies this`lastMapPiece, this`hasInitialPiece, this`visitedRooms, this`breadcrumbs, this`trail, this`lastJunction
      ensures Valid() && lastMapPiece == Some(p) && hasInitialPiece
      ensures trail == old(trail) + [p] && visitedRooms == old(visitedRooms) + {p}
    {
      lastMapPiece := Some(p);
      hasInitialPiece := true;
      AddBreadcrumb(Some(p));
    }

    /** Movement detection: a piece other than the last one is a move, followed and then remembered. */
    method TrackMovement(p: Piece, look: int)
      requires Valid() && grid.Has(p) && hasInitialPiece
      modifies this`lastMapPiece, this`visitedRooms, this`breadcrumbs, this`trail, this`lastJunction, this`pathfindActive,
               this`currentRoute, this`routeStepIndex, this`routeTargetPiece, this`routeStart, this`spoken
      ensures Valid() && lastMapPiece == Some(p)
      ensures Some(p) == old(lastMapPiece) ==> unchanged(this)
      ensures Some(p) != old(lastMapPiece) ==>
                trail == old(trail) + [p] && visitedRooms == old(visitedRooms) + {p} && !pathfindActive
      ensures Some(p) != old(lastMapPiece) && (!gpsActive || old(currentRoute).None?) ==>
                RouteSnapshot() == old(RouteSnapshot()) && spoken == old(spoken)
      ensures Some(p) != old(lastMapPiece) && gpsActive && old(currentRoute).Some? ==>
                GpsMoved(old(spoken), old(currentRoute).value, old(routeStepIndex), old(lastMapPiece).value, p, look)
      ensures gpsActive && old(InStep()) && currentRoute.Some? ==> OnTrack(p)
    {
      if Some(p) != lastMapPiece {
        OnPlayerMoved(p, look);
        lastMapPiece := Some(p);
      }
    }

    /**
     * The key half of Update: during target selection Enter asks for the
     * route to the selected target and Escape ends the selection.
     */
    method HandleSelectionKeys(currentPiece: Piece, look: int, enterPressed: bool, escapePressed: bool)
      requires Valid() && grid.Has(currentPiece)
      modifies this`pathfindActive, this`currentRoute, this`routeStepIndex, this`routeTargetPiece,
               this`routeTargetName, this`routeStart, this`lastAnnouncement, this`spoken
      ensures Valid()
      ensures !old(pathfindActive) || (!enterPressed && !escapePressed) ==> unchanged(this)
      ensures old(pathfindActive) && !enterPressed && escapePressed ==>
                !pathfindActive && RouteSnapshot() == old(RouteSnapshot()) && spoken == old(spoken)
      ensures old(pathfindActive) && enterPressed ==>
                && !pathfindActive && targets.Some? && targets.value != []
                && Selected(old(RouteSnapshot()), old(spoken), currentPiece, look)
      ensures old(OnTrack(currentPiece)) && currentRoute.Some? ==> OnTrack(currentPiece)
    {
      if pathfindActive && enterPressed {
        SelectCurrentTarget(Some(currentPiece), look);
        return;
      }
      if pathfindActive && escapePressed {
        pathfindActive := false;
      }
    }

    /**
     * Update, once per frame: with the game manager and the player's piece
     * known, the first frame only records the piece; later frames notice a
     * move, then Enter during target selection asks for the route and Escape
     * ends the selection.
     */
    method Update(currentPiece: Option<Piece>, look: int, enterPressed: bool, escapePressed: bool)
      requires Valid() && InRange(currentPiece, |grid.cells|)
      modifies this
      ensures Valid()
      ensures gpsActive == old(gpsActive) && targets == old(targets) && hasGameManager == old(hasGameManager)
      ensures !old(hasGameManager) || currentPiece.None? ==> unchanged(this)
      ensures old(hasGameManager) && currentPiece.Some? ==> lastMapPiece == currentPiece && hasInitialPiece
      ensures old(hasGameManager) && !old(hasInitialPiece) && currentPiece.Some? ==>
                && trail == old(trail) + [currentPiece.value] && pathfindActive == old(pathfindActive)
                && RouteSnapshot() == old(RouteSnapshot()) && spoken == old(spoken)
      ensures old(hasGameManager) && old(hasInitialPiece) && currentPiece.Some? && currentPiece != old(lastMapPiece) ==>
                && trail == old(trail) + [currentPiece.value] && !pathfindActive
                && (!gpsActive || old(currentRoute).None? ==> RouteSnapshot() == old(RouteSnapshot()) && spoken == old(spoken))
                && (gpsActive && old(currentRoute).Some? ==>
                      GpsMoved(old(spoken), old(currentRoute).value, old(routeStepIndex), old(lastMapPiece).value,
                               currentPiece.value, look))
      ensures old(hasGameManager) && old(hasInitialPiece) && currentPiece.Some? && currentPiece == old(lastMapPiece) ==>
                && trail == old(trail)
                && (!old(pathfindActive) || (!enterPressed && !escapePressed) ==> unchanged(this))
                && (old(pathfindActive) && !enterPressed && escapePressed ==>
                      !pathfindActive && RouteSnapshot() == old(RouteSnapshot()) && spoken == old(spoken))
                && (old(pathfindActive) && enterPressed ==>
                      && !pathfindActive && targets.Some? && targets.value != []
                      && Selected(old(RouteSnapshot()), old(spoken), currentPiece.value, look))
      ensures gpsActive && old(InStep()) && currentRoute.Some? ==> InStep()
    {
      if !hasGameManager || currentPiece.None? {
        return;
      }
      var current := currentPiece.value;
      if !hasInitialPiece {
        RecordFirstPiece(current);
        return;
      }
      HandleFrame(current, look, enterPressed, escapePressed);
    }

    /** The part of Update after the first frame: notice a move, then handle the selection keys. */
    method HandleFrame(current: Piece, look: int, enterPressed: bool, escapePressed: bool)
      requires Valid() && grid.Has(current) && hasInitialPiece
      modifies this`lastMapPiece, this`visitedRooms, this`breadcrumbs, this`trail, this`lastJunction, this`pathfindActive,
               this`currentRoute, this`routeStepIndex, this`routeTargetPiece, this`routeTargetName, this`routeStart,
               this`lastAnnouncement, this`spoken
      ensures Valid() && lastMapPiece == Some(current)
      ensures Some(current) != old(lastMapPiece) ==>
                && trail == old(trail) + [current] && !pathfindActive
                && (!gpsActive || old(currentRoute).None? ==> RouteSnapshot() == old(RouteSnapshot()) && spoken == old(spoken))
                && (gpsActive && old(currentRoute).Some? ==>
                      GpsMoved(old(spoken), old(currentRoute).value, old(routeStepIndex), old(lastMapPiece).value, current, look))
      ensures Some(current) == old(lastMapPiece) ==>
                && trail == old(trail)
                && (!old(pathfindActive) || (!enterPressed && !escapePressed) ==> unchanged(this))
                && (old(pathfindActive) && !enterPressed && escapePressed ==>
                      !pathfindActive && RouteSnapshot() == old(RouteSnapshot()) && spoken == old(spoken))
                && (old(pathfindActive) && enterPressed ==>
                      && !pathfindActive && targets.Some? && targets.value != []
                      && Selected(old(RouteSnapshot()), old(spoken), current, look))
      ensures gpsActive && old(InStep()) && currentRoute.Some? ==> InStep()
    {
      TrackMovement(current, look);
      HandleSelectionKeys(current, look, enterPressed, escapePressed);
    }

    /**
     * Retrace: directions from the player's piece back to the last junction:
     * "no breadcrumbs" without one, "here" on it, "no route" exactly when no
     * route within the default depth reaches it, else a shortest route to it.
     */
    method Retrace(currentPiece: Option<Piece>, look: int)
      requires Valid() && InRange(currentPiece, |grid.cells|)
      modifies this`lastAnnouncement, this`spoken
      ensures Valid()
      ensures !hasGameManager || currentPiece.None? ==> spoken == old(spoken)
      ensures hasGameManager && currentPiece.Some? && lastJunction.None? ==>
                spoken == old(spoken) + [Say([Plain(PathNoBreadcrumbs)])]
      ensures hasGameManager && currentPiece.Some? && lastJunction == currentPiece ==>
                spoken == old(spoken) + [Say([Plain(NavHere)])]
      ensures hasGameManager && currentPiece.Some? && lastJunction.Some? && lastJunction != currentPiece ==>
                if ReachableWithin(grid, currentPiece.value, lastJunction.value, DefaultMaxDepth, true) then
                  exists path | Shortest(grid, currentPiece.value, path, lastJunction.value, true) ::
                    && 1 <= |path| <= DefaultMaxDepth
                    && spoken == old(spoken) + [Say([Msg(PathRetrace, [Joined(RouteDescription(path, look))])])]
                else
                  spoken == old(spoken) + [Say([Plain(PathNoRoute)])]
    {
      if !hasGameManager || currentPiece.None? {
        return;
      }
      if lastJunction.None? {
        Announce([Plain(PathNoBreadcrumbs)]);
        return;
      }
      if currentPiece == lastJunction {
        Announce([Plain(NavHere)]);
        return;
      }
      var path := FindPath(grid, currentPiece, lastJunction, DefaultMaxDepth);
      if path.None? {
        Announce([Plain(PathNoRoute)]);
        return;
      }
      var route := BuildRouteDescription(path, look);
      Announce([Msg(PathRetrace, [Joined(route)])]);
      assert Shortest(grid, currentPiece.value, path.value, lastJunction.value, true) && 1 <= |path.value| <= DefaultMaxDepth;
      assert spoken == old(spoken) + [Say([Msg(PathRetrace, [Joined(RouteDescription(path.value, look))])])];
    }
  }
}
