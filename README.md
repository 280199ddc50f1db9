# Spatial navigation core of a screen-reader mod for a grid dungeon crawler

This project models the part of the accessibility mod that helps a blind
player find their way around the game's grid dungeon. The model covers five
parts.

- **Direction arithmetic** (`direction.dfy`, from `DirectionHelper`):
  - absolute directions 0 = west, 1 = north, 2 = east, 3 = south;
  - relative directions 0 = ahead, 1 = right, 2 = behind, 3 = left;
  - conversion between the two with C#'s truncating `%`;
  - the inverse direction, the neighbour lookup, and the spoken names.
- **Traversal rules and scanning** (`room_scanner.dfy`, from `RoomScanner`):
  - the ordered, short-circuit list of eight rules that decides whether a move between two pieces is blocked;
  - the exit list of a piece;
  - the three-step rays that collect points of interest;
  - the tag list of the player's own piece.
- **Searches** (`pathfinder.dfy`, from `Pathfinder`):
  - the level-counted breadth-first search `FindPath`, which never passes through a live enemy;
  - the exhaustive `FindAllReachable` with its target collection and the sort by distance;
  - route descriptions and the one-step GPS instruction.
  - `routes.dfy` holds the scheme both route describers follow: runs of equal moves, each preceded by a turn when it is not ahead.
- **The pathfinding handler** (`pathfind_handler.dfy`, from `PathfindHandler`), a class whose methods update its fields:
  - movement detection;
  - target scanning, cycling and selection;
  - GPS guidance that advances, arrives or recalculates;
  - the visited set;
  - the breadcrumb list capped at 200;
  - junction tracking and retracing.
- **The category navigation handler** (`navigation.dfy`, from `NavigationHandler`), a class:
  - a per-category cache of exits, things on the player's piece and ray points of interest;
  - category and item cycling with a wrap-around index;
  - invalidation on a move or turn;
  - directions found by its own ten-level search.

A MapPiece is an index into the level's `cells` (`grid.dfy`). A null reference is `Option.None`. A localised string is a message key with its format arguments (`messages.dfy`). What the screen reader is asked to say is appended to a `spoken` log. What the game manager reports in a frame, and the keys pressed in it, are method parameters.

## Model

| member | source | states |
|---|---|---|
| Direction.AbsoluteToRelative | Accessibility-Mod-Template/src/DirectionHelper.cs:16-19 | on genuine directions the result is a direction; it is "ahead" exactly when the two agree; turning from the facing by the result gives back the absolute direction; any input gives a value in (-4, 4) |
| Direction.CsRem | Accessibility-Mod-Template/src/DirectionHelper.cs:18 | C#'s `%` agrees with the mathematical remainder on non-negative dividends and lies in (-b, 0] on negative ones |
| Direction.GetRelativeName | Accessibility-Mod-Template/src/DirectionHelper.cs:24-34 | the name is `dir_unknown` exactly for values outside 0..3 |
| Direction.GetAbsoluteName | Accessibility-Mod-Template/src/DirectionHelper.cs:40-50 | the name is `dir_unknown` exactly for values outside 0..3 |
| Direction.DirectionNamesDistinct | Accessibility-Mod-Template/src/DirectionHelper.cs:24-50 | distinct directions get distinct names, and relative names never coincide with absolute ones |
| Direction.GetAdjacentPiece | Accessibility-Mod-Template/src/DirectionHelper.cs:58-70 | a neighbour is found only for a non-null piece and a direction in 0..3, and it lies in the level |
| Direction.AdjacentLinks | Accessibility-Mod-Template/src/DirectionHelper.cs:58-70 | directions 0, 1, 2, 3 lead along the piece's left, up, right and down links |
| Direction.InverseDirection | Accessibility-Mod-Template/src/DirectionHelper.cs:76-86 | on 0..3 it is `(d+2)%4`, a different direction; anything else gives 0 |
| Direction.InverseIsInvolution | Accessibility-Mod-Template/src/DirectionHelper.cs:76-86 | inverting twice gives the direction back |
| Direction.OppositeIsBehind | Accessibility-Mod-Template/src/DirectionHelper.cs:16-19 | the direction opposite the facing is "behind" (relative 2) |
| Direction.FollowSnoc | Accessibility-Mod-Template/src/DirectionHelper.cs:58-70 | replaying one more move continues from where the shorter replay ended |
| Direction.WalkIsFollow | Accessibility-Mod-Template/src/DirectionHelper.cs:58-70 | walking n steps one way is replaying n copies of that move |
| RoomScanner.HeightRuleSymmetric | Accessibility-Mod-Template/src/RoomScanner.cs:320-322 | the height rule blocks both ways or neither; a drop of exactly 4 passes; it blocks iff the drop exceeds 4 and neither piece overrides |
| RoomScanner.WallsBlockSpec | Accessibility-Mod-Template/src/RoomScanner.cs:325-343 | the early-return wall scan blocks exactly when some wall is placed in the direction and flagged blocking |
| RoomScanner.BlockersBlockSpec | Accessibility-Mod-Template/src/RoomScanner.cs:346-363 | the blocker scan blocks exactly when some active blocker with a node fires: on the current piece for the inverse of its direction, on the target for its direction |
| RoomScanner.IsDirectionBlocked | Accessibility-Mod-Template/src/RoomScanner.cs:309-376 | a missing target is always blocked |
| RoomScanner.RuleBlocksIffFires | Accessibility-Mod-Template/src/RoomScanner.cs:311-372 | each rule as the source checks it (scanning lists) agrees with its declarative statement |
| RoomScanner.FirstRuleBlocksSpec | Accessibility-Mod-Template/src/RoomScanner.cs:309-376 | the short-circuit walk down the rule list blocks exactly when one of the remaining rules applies |
| RoomScanner.BlockedIffSomeRuleFires | Accessibility-Mod-Template/src/RoomScanner.cs:309-376 | a move is blocked exactly when one of the eight rules fires: missing target, always-block, node flag, height, source wall, target wall, blocker, unsolved word; otherwise it is open |
| RoomScanner.ExitsBelowSound | Accessibility-Mod-Template/src/RoomScanner.cs:119-138 | every exit describes an existing neighbour and carries the traversal rules' verdict |
| RoomScanner.ExitsBelowSorted | Accessibility-Mod-Template/src/RoomScanner.cs:124-135 | at most one exit per direction, in strictly increasing direction order, so at most 4 |
| RoomScanner.ExitsBelowComplete | Accessibility-Mod-Template/src/RoomScanner.cs:124-135 | every existing neighbour has an exit |
| RoomScanner.ScanExits | Accessibility-Mod-Template/src/RoomScanner.cs:119-138 | no exits for a null piece, otherwise exactly the exit list of all four directions |
| RoomScanner.DetectKindsFields | Accessibility-Mod-Template/src/RoomScanner.cs:194-293 | each reported point of interest carries the ray's direction and step, is of a kind the piece shows, and bears the entity's name |
| RoomScanner.DetectKindsCovers | Accessibility-Mod-Template/src/RoomScanner.cs:194-293 | every kind the piece shows is reported |
| RoomScanner.DetectKindsDistinct | Accessibility-Mod-Template/src/RoomScanner.cs:194-293 | no kind is reported twice |
| RoomScanner.DetectPOIsSpec | Accessibility-Mod-Template/src/RoomScanner.cs:194-293 | the kinds reported for a piece are exactly those it shows, each once; a container is reported only when unopened and active, as `poi_container` iff it can be opened or toppled, else as `poi_scenery` |
| RoomScanner.RayPoiSound | Accessibility-Mod-Template/src/RoomScanner.cs:164-189 | every point of interest on a ray lies within 3 steps along an open ray and is one of that piece's own; nothing is reported past an obstacle or past a live enemy |
| RoomScanner.RayPoiComplete | Accessibility-Mod-Template/src/RoomScanner.cs:164-189 | every point of interest of a piece reached along an open ray within 3 steps is reported |
| RoomScanner.ScanLine | Accessibility-Mod-Template/src/RoomScanner.cs:164-189 | the caller's list grows by exactly what the ray reports |
| RoomScanner.RayMemberSound | Accessibility-Mod-Template/src/RoomScanner.cs:164-189 | a ray's point of interest is 1 to 3 steps away in the ray's direction along an open ray, and never a door |
| RoomScanner.NearbyPoiSound | Accessibility-Mod-Template/src/RoomScanner.cs:144-189 | every nearby point of interest is 1 to 3 steps away in a genuine direction along an open ray |
| RoomScanner.ScanNearbyPOIs | Accessibility-Mod-Template/src/RoomScanner.cs:144-155 | nothing for a null piece, otherwise the four rays' reports in direction order |
| RoomScanner.RoomTagsFields | Accessibility-Mod-Template/src/RoomScanner.cs:57-113 | every room tag is the message of a listed, present thing |
| RoomScanner.RoomTagsCovers | Accessibility-Mod-Template/src/RoomScanner.cs:57-113 | every listed, present thing is tagged |
| RoomScanner.RoomTagsDistinct | Accessibility-Mod-Template/src/RoomScanner.cs:57-113 | no tag is listed twice |
| RoomScanner.ScanCurrentRoom | Accessibility-Mod-Template/src/RoomScanner.cs:57-113 | empty for a null piece; otherwise the tags are exactly the things present (a named live enemy, a named NPC, an unopened active container as a container or as scenery, an active trap, fishing, cards, a shop), each once |
| Pathfinder.RouteReplays | Accessibility-Mod-Template/src/Pathfinder.cs:70-91 | a route replayed neighbour by neighbour from its start reaches its end |
| Pathfinder.AvoidingRouteIsRoute | Accessibility-Mod-Template/src/Pathfinder.cs:78-81 | a route that avoids live enemies is a route when they are not avoided |
| Pathfinder.EdgesOkAdd | Accessibility-Mod-Template/src/Pathfinder.cs:83-85 | recording a new piece through an open edge keeps every parent link an open edge one level up |
| Pathfinder.ParentsOkAdd | Accessibility-Mod-Template/src/Pathfinder.cs:83-85 | recording a new piece keeps the search invariant |
| Pathfinder.ReconstructPath | Accessibility-Mod-Template/src/Pathfinder.cs:104-113 | the parent links give a route from the start to the piece, of length equal to the piece's level |
| Pathfinder.FrontierDequeue | Accessibility-Mod-Template/src/Pathfinder.cs:68 | the queue's head is a visited, expandable piece at the current level, and the rest keeps the queue's structure |
| Pathfinder.FrontierEnqueue | Accessibility-Mod-Template/src/Pathfinder.cs:83-85 | queueing a newly found piece one level deeper keeps the queue's structure |
| Pathfinder.FrontierNextLevel | Accessibility-Mod-Template/src/Pathfinder.cs:63-98 | once a level is used up, the whole queue is the next level |
| Pathfinder.ExpandRecord | Accessibility-Mod-Template/src/Pathfinder.cs:83-92 | recording an open neighbour one level deeper keeps the search invariant; unless it is the target, the levels and the expanded pieces are kept and the expansion moves past its direction |
| Pathfinder.RecordLayered | Accessibility-Mod-Template/src/Pathfinder.cs:83-85 | queueing a new piece one level deeper keeps the queue's levels, every expanded piece expanded, and extends the current expansion |
| Pathfinder.LevelDone | Accessibility-Mod-Template/src/Pathfinder.cs:96-98 | a round that used up its level leaves the next level ready |
| Pathfinder.RouteFound | Accessibility-Mod-Template/src/Pathfinder.cs:63-99 | once every piece nearer than the depth is expanded, the end of any open route from a visited piece is visited, no further away than the route's length allows |
| Pathfinder.NoRouteWithin | Accessibility-Mod-Template/src/Pathfinder.cs:63-101 | a target left unvisited after the search has no route of at most the searched depth |
| Pathfinder.NoRouteAtAll | Accessibility-Mod-Template/src/Pathfinder.cs:63-101 | a target left unvisited when the queue ran dry has no route at all |
| Pathfinder.ExpandLevel | Accessibility-Mod-Template/src/Pathfinder.cs:65-98 | one round keeps the search invariant; a found target is exactly depth+1 levels away; otherwise the next level is ready: the queue is that level and every piece on an earlier one is expanded |
| Pathfinder.ExpandPiece | Accessibility-Mod-Template/src/Pathfinder.cs:70-92 | expanding one piece keeps the search invariant; a found target is exactly depth+1 levels away; otherwise every open neighbour is recorded and the queue keeps its levels |
| Pathfinder.LevelSearch | Accessibility-Mod-Template/src/Pathfinder.cs:53-113 | a route is found exactly when one of at most maxDepth moves exists (avoiding live enemies when asked), and it is a shortest one, of 1 to maxDepth moves |
| Pathfinder.FindPath | Accessibility-Mod-Template/src/Pathfinder.cs:48-114 | null for a null end; empty iff start equals target; for distinct ends a route is returned exactly when an enemy-avoiding route of at most maxDepth moves exists, and it is a shortest such route |
| Pathfinder.WithTargetsPrefix | Accessibility-Mod-Template/src/Pathfinder.cs:267-370 | collecting a piece's targets keeps the earlier list as a prefix and adds at most seven entries |
| Pathfinder.PieceTargetsSound | Accessibility-Mod-Template/src/Pathfinder.cs:267-370 | every entry collected for a piece is one of its targets, with the given distance and path |
| Pathfinder.PieceTargetsComplete | Accessibility-Mod-Template/src/Pathfinder.cs:267-370 | every target of a piece is collected: an NPC, a live enemy, an unopened active interactive container, a shop, fishing, cards, and one door if any wall covers one |
| Pathfinder.WithTargetsMembers | Accessibility-Mod-Template/src/Pathfinder.cs:267-370 | the collected list holds exactly the earlier entries and the piece's targets |
| Pathfinder.CollectTargets | Accessibility-Mod-Template/src/Pathfinder.cs:267-370 | a null piece adds nothing; otherwise exactly the piece's targets are appended |
| Pathfinder.ValidTargetsInLevel | Accessibility-Mod-Template/src/Pathfinder.cs:120-172 | every reported target is a piece of the level |
| Pathfinder.ValidTargetsGrow | Accessibility-Mod-Template/src/Pathfinder.cs:157-159 | collecting the targets of a piece reached by a valid route keeps every target valid and loses none |
| Pathfinder.PiecesBelow | Accessibility-Mod-Template/src/Pathfinder.cs:137 | the set holds exactly the pieces numbered below n (the termination measure of the search) |
| Pathfinder.CollectReached | Accessibility-Mod-Template/src/Pathfinder.cs:158-159 | the route the parent links give leads from the start to the reached piece and is as long as its level; the piece's targets are appended with it, all stay valid and none is lost |
| Pathfinder.RecordNeighbour | Accessibility-Mod-Template/src/Pathfinder.cs:146-165 | the neighbour is visited one level deeper with its parent link, its targets are appended with its route, and it is queued exactly when it holds no live enemy; the search invariant and valid targets are kept |
| Pathfinder.VisitNeighbours | Accessibility-Mod-Template/src/Pathfinder.cs:144-166 | after one expansion every open neighbour is visited, the exhaustive search's invariant and valid targets are kept, no target is lost, and the queue grows only with newly visited pieces |
| Pathfinder.UnvisitedShrinks | Accessibility-Mod-Template/src/Pathfinder.cs:137-167 | recording new pieces shrinks the unvisited part of the level |
| Pathfinder.ExploredAdd | Accessibility-Mod-Template/src/Pathfinder.cs:152-165 | recording a new neighbour, queueing it unless it holds a live enemy, keeps the exhaustive search's invariant and extends the current expansion |
| Pathfinder.SearchStep | Accessibility-Mod-Template/src/Pathfinder.cs:139-166 | one pass of the loop keeps the exhaustive search's invariant, loses no target, and either shrinks the unvisited pieces or the queue |
| Pathfinder.ExploreAll | Accessibility-Mod-Template/src/Pathfinder.cs:137-167 | the loop ends with an empty queue, its invariant kept and no target lost |
| Pathfinder.ReachAll | Accessibility-Mod-Template/src/Pathfinder.cs:137-167 | once the queue is used up, the end of every enemy-avoiding route within the cap from a visited piece is visited, no further away than the route's length allows |
| Pathfinder.SearchComplete | Accessibility-Mod-Template/src/Pathfinder.cs:137-167 | once the queue is used up, every listed target's path is a shortest route, and every target of a piece reachable within the cap is listed |
| Pathfinder.ResultPermuted | Accessibility-Mod-Template/src/Pathfinder.cs:170 | reordering the result keeps every target valid and shortest, loses none, and keeps the listing complete |
| Pathfinder.FindAllReachable | Accessibility-Mod-Template/src/Pathfinder.cs:120-172 | empty for a null start; sorted by distance; every path is a shortest enemy-avoiding route to its target within maxDepth (or empty at the start); every target of a piece reachable within maxDepth is listed, the start piece's own at distance 0; no piece is listed twice with the same kind, since a piece's targets are collected only when it is first visited |
| Pathfinder.BuildRouteDescription | Accessibility-Mod-Template/src/Pathfinder.cs:178-223 | "here" for a null or empty path; otherwise the pathfinding words for the grouped instructions of the path |
| Pathfinder.GetNextGPSInstruction | Accessibility-Mod-Template/src/Pathfinder.cs:229-241 | the word is the turn a one-move route would announce, or "ahead" when no turn is needed |
| Pathfinder.InsertSorted | Accessibility-Mod-Template/src/Pathfinder.cs:170 | insertion keeps a list ordered by distance and adds one entry |
| Pathfinder.InsertPermutes | Accessibility-Mod-Template/src/Pathfinder.cs:170 | insertion adds the new entry and loses nothing |
| Pathfinder.SortByDistanceSpec | Accessibility-Mod-Template/src/Pathfinder.cs:170 | the sort yields a permutation of its input ordered by distance |
| Pathfinder.InsertNoRepeats | Accessibility-Mod-Template/src/Pathfinder.cs:170 | inserting an entry whose piece and kind are new into a list without repeats leaves it without repeats |
| Pathfinder.SortNoRepeats | Accessibility-Mod-Template/src/Pathfinder.cs:170 | the sort keeps a list without repeated (piece, kind) entries free of them |
| Pathfinder.PieceTargetsNoRepeats | Accessibility-Mod-Template/src/Pathfinder.cs:267-370 | a piece's collected targets all name that piece, each kind at most once |
| Pathfinder.NoRepeatsGrow | Accessibility-Mod-Template/src/Pathfinder.cs:145-157 | collecting the targets of a piece not yet visited, and so not yet listed, keeps the list without repeats |
| Routes.RunLength | Accessibility-Mod-Template/src/Pathfinder.cs:209-215 | a run is never longer than the path |
| Routes.RunLengthSpec | Accessibility-Mod-Template/src/Pathfinder.cs:209-215 | the leading run is a maximal block of equal moves |
| Routes.FlattenRouteSteps | Accessibility-Mod-Template/src/Pathfinder.cs:186-220 | grouping the path into instructions loses and adds no move: the "go n" counts sum to the path length |
| Routes.HearGroup | Accessibility-Mod-Template/src/Pathfinder.cs:190-219 | hearing a turn and a run leaves the listener facing the run's direction |
| Routes.DirsSuffix | Accessibility-Mod-Template/src/Pathfinder.cs:186-187 | a suffix of a path of genuine directions holds only genuine directions |
| Routes.HearRouteSteps | Accessibility-Mod-Template/src/Pathfinder.cs:186-220 | a listener who starts at the player's facing and follows only the relative turns and counts walks exactly the original path |
| Routes.ShapedGroup | Accessibility-Mod-Template/src/Pathfinder.cs:190-217 | a turn-and-run group keeps the instructions in normal form |
| Routes.RouteStepsShaped | Accessibility-Mod-Template/src/Pathfinder.cs:186-220 | every turn is a real turn followed by a "go", and every "go" moves at least once |
| Routes.RouteStepsMaximalRuns | Accessibility-Mod-Template/src/Pathfinder.cs:209-215 | successive "go" instructions never share a direction, and the first goes the path's first way |
| Routes.SingleMoveSteps | Accessibility-Mod-Template/src/Pathfinder.cs:229-241 | a one-move route is a turn exactly when the move is not ahead, then one step |
| Routes.PathMsgsSnoc | Accessibility-Mod-Template/src/Pathfinder.cs:195-217 | the words for one more instruction are appended at the end |
| Routes.NavMsgsSnoc | Accessibility-Mod-Template/src/NavigationHandler.cs:629-654 | the words for one more instruction are appended at the end |
| Routes.RunLengthIs | Accessibility-Mod-Template/src/Pathfinder.cs:209-215 | a block of equal moves that the next move breaks is the run the instructions group |
| Routes.RouteStepsGroup | Accessibility-Mod-Template/src/Pathfinder.cs:187-220 | one group of instructions is the turn for the run, the run, then the rest from the run's direction |
| Routes.SkipRun | Accessibility-Mod-Template/src/Pathfinder.cs:210-215 | the counting loop stops exactly at the end of the run of moves equal to the first |
| Routes.RouteProgress | Accessibility-Mod-Template/src/Pathfinder.cs:187-220 | after each pass of the outer loop, the parts so far are the instructions for the moves consumed |
| Pathfinding.MostRecentPush | Accessibility-Mod-Template/src/PathfindHandler.cs:453-457 | appending and dropping the oldest beyond the cap keeps the most recent 200 of the trail |
| Pathfinding.VisitedSnoc | Accessibility-Mod-Template/src/PathfindHandler.cs:452 | adding a piece to the trail adds it to the visited set |
| Pathfinding.VisitedMembers | Accessibility-Mod-Template/src/PathfindHandler.cs:214-217 | a piece was visited exactly when it is in the trail |
| Pathfinding.PushedProps | Accessibility-Mod-Template/src/PathfindHandler.cs:448-457 | adding a breadcrumb keeps the list within 200, drops the oldest exactly when full, keeps every crumb visited and keeps it the most recent of the trail |
| Pathfinding.PushedShape | Accessibility-Mod-Template/src/PathfindHandler.cs:453-457 | the capped push drops the oldest exactly when the cap is reached and adds only the new piece |
| Pathfinding.OpenCountBound | Accessibility-Mod-Template/src/PathfindHandler.cs:475-487 | at most n of n directions are open |
| Pathfinding.FormatTarget | Accessibility-Mod-Template/src/PathfindHandler.cs:337-345 | a named target is announced with its name, an unnamed one without; both carry the kind and the distance |
| Pathfinding.FormatTargetName | Accessibility-Mod-Template/src/PathfindHandler.cs:350-355 | the target's name when it has one, else its kind's word |
| Pathfinding.FollowStep | Accessibility-Mod-Template/src/PathfindHandler.cs:380-386 | taking the route's next move from where the first i moves lead ends where the first i+1 lead |
| Pathfinding.InStepLastStepArrives | Accessibility-Mod-Template/src/PathfindHandler.cs:386-394 | while guidance is in step, the route's last matching move lands on the route's target |
| Pathfinding.PathfindHandler.SelectedTarget | Accessibility-Mod-Template/src/PathfindHandler.cs:303 | the selected target is in the list and in the level |
| Pathfinding.PathfindHandler.constructor | Accessibility-Mod-Template/src/PathfindHandler.cs:19-55 | every field starts empty, null, false or 0, and the invariant holds |
| Pathfinding.PathfindHandler.SetGameManager | Accessibility-Mod-Template/src/PathfindHandler.cs:63-66 | the game manager is known afterwards |
| Pathfinding.PathfindHandler.Announce | Accessibility-Mod-Template/src/PathfindHandler.cs:496-500 | the text is spoken, interrupting, and remembered for repeating |
| Pathfinding.PathfindHandler.IsVisited | Accessibility-Mod-Template/src/PathfindHandler.cs:214-217 | true exactly for a non-null piece that was added to the trail |
| Pathfinding.PathfindHandler.RepeatLastAnnouncement | Accessibility-Mod-Template/src/PathfindHandler.cs:222-226 | repeats the last announcement if there is one, otherwise says nothing |
| Pathfinding.PathfindHandler.ToggleGPS | Accessibility-Mod-Template/src/PathfindHandler.cs:137-151 | GPS mode flips, and the new mode is announced |
| Pathfinding.PathfindHandler.ClearSelection | Accessibility-Mod-Template/src/PathfindHandler.cs:195-197 | no target list, index 0, selection inactive |
| Pathfinding.PathfindHandler.ClearRoute | Accessibility-Mod-Template/src/PathfindHandler.cs:198-202 | no route, step 0, no target piece or name, GPS off |
| Pathfinding.PathfindHandler.ClearTrail | Accessibility-Mod-Template/src/PathfindHandler.cs:203-205 | no breadcrumbs, nothing visited, no junction |
| Pathfinding.PathfindHandler.Reset | Accessibility-Mod-Template/src/PathfindHandler.cs:190-208 | every field is back at its initial value and both collections are empty; nothing is spoken |
| Pathfinding.PathfindHandler.CountOpenExits | Accessibility-Mod-Template/src/PathfindHandler.cs:475-487 | the count is the number of directions with a neighbour the traversal rules let the player enter, so 0..4 |
| Pathfinding.PathfindHandler.PresentTargets | Accessibility-Mod-Template/src/PathfindHandler.cs:268-282 | the list is stored at index 0; selection is on exactly when it is non-empty; "no targets" for an empty list, else the count and the first target |
| Pathfinding.PathfindHandler.StoreTargets | Accessibility-Mod-Template/src/PathfindHandler.cs:267-277 | the list is stored at index 0, selection is on exactly when it is non-empty, and the handler's invariant holds |
| Pathfinding.PathfindHandler.RecordVisit | Accessibility-Mod-Template/src/PathfindHandler.cs:452-457 | the piece joins the trail and the visited set, and the breadcrumbs are appended to, dropping the oldest when full |
| Pathfinding.PathfindHandler.AddBreadcrumb | Accessibility-Mod-Template/src/PathfindHandler.cs:448-470 | a null piece changes nothing; otherwise the piece is visited and appended within the cap of 200; it becomes the last junction exactly when the game manager is known and it has at least 3 open exits |
| Pathfinding.PathfindHandler.NoteJunction | Accessibility-Mod-Template/src/PathfindHandler.cs:460-469 | a piece becomes the last junction exactly when the game manager is known and it has at least 3 open exits; otherwise the junction is kept |
| Pathfinding.PathfindHandler.ScanForTargets | Accessibility-Mod-Template/src/PathfindHandler.cs:263-283 | "scanning", then all reachable targets sorted by distance at index 0, each on a shortest route, none missing and none repeated, so the count spoken is the number of distinct targets; then "no targets" with selection off, or the count and the first target with selection on |
| Pathfinding.PathfindHandler.CycleTarget | Accessibility-Mod-Template/src/PathfindHandler.cs:288-294 | a no-op on a null or empty list; otherwise the index steps on modulo the count and the new target is announced |
| Pathfinding.PathfindHandler.HandlePathfindKey | Accessibility-Mod-Template/src/PathfindHandler.cs:113-132 | nothing without a game manager or piece; the first press has the outcome of a scan, later presses that of cycling |
| Pathfinding.PathfindHandler.StoreRoute | Accessibility-Mod-Template/src/PathfindHandler.cs:324-326 | the route is stored at step 0 with its target, and guidance is in step at its start |
| Pathfinding.PathfindHandler.RouteToTarget | Accessibility-Mod-Template/src/PathfindHandler.cs:316-331 | "no route" with the route state untouched exactly when no enemy-avoiding route of at most 100 moves exists; otherwise a shortest one is stored at step 0 with the target and its name, and announced |
| Pathfinding.PathfindHandler.SelectCurrentTarget | Accessibility-Mod-Template/src/PathfindHandler.cs:299-332 | selection always ends; nothing changes for a missing list; nothing is stored for a missing piece or for a distance-0 target ("here"); otherwise the outcome of routing to the selected target |
| Pathfinding.PathfindHandler.RecalculateRoute | Accessibility-Mod-Template/src/PathfindHandler.cs:414-439 | without a target the route is dropped silently; otherwise "off route", then "no route" with the route dropped exactly when no route of at most 100 moves exists, else a shortest one to the same target at step 0, announced |
| Pathfinding.PathfindHandler.FollowFreshRoute | Accessibility-Mod-Template/src/PathfindHandler.cs:432-438 | the fresh route is stored at step 0 from the current piece, guidance is in step there, and "off route" then the route to the kept target are queued |
| Pathfinding.PathfindHandler.HandleGPSMovement | Accessibility-Mod-Template/src/PathfindHandler.cs:365-409 | reaching the target, or the route's last move, ends the route with "arrived"; the route's next move advances the step by exactly 1 and queues the next instruction; any other move has the outcome of recalculating; guidance stays in step |
| Pathfinding.PathfindHandler.FollowRoute | Accessibility-Mod-Template/src/PathfindHandler.cs:250-253 | without GPS or a route nothing changes; otherwise the outcome of GPS movement, keeping guidance in step |
| Pathfinding.PathfindHandler.OnPlayerMoved | Accessibility-Mod-Template/src/PathfindHandler.cs:236-254 | the new piece joins the trail and the visited set, target selection ends, and with GPS on and a route the outcome is that of GPS movement; otherwise route and speech are untouched |
| Pathfinding.PathfindHandler.RecordFirstPiece | Accessibility-Mod-Template/src/PathfindHandler.cs:79-84 | the first piece is remembered and starts the trail |
| Pathfinding.PathfindHandler.TrackMovement | Accessibility-Mod-Template/src/PathfindHandler.cs:87-92 | the same piece changes nothing; a different piece joins the trail, ends selection and has the outcome of GPS movement when GPS is on with a route |
| Pathfinding.PathfindHandler.HandleSelectionKeys | Accessibility-Mod-Template/src/PathfindHandler.cs:94-107 | outside selection, or with neither key, nothing changes; Escape ends selection silently; Enter ends it with the outcome of selecting the current target |
| Pathfinding.PathfindHandler.Update | Accessibility-Mod-Template/src/PathfindHandler.cs:71-108 | nothing without a game manager or piece; the first frame records the piece; a move joins the trail, ends selection and follows the route under GPS; a still frame has the outcome of the selection keys; GPS mode and targets are untouched; guidance stays in step |
| Pathfinding.PathfindHandler.HandleFrame | Accessibility-Mod-Template/src/PathfindHandler.cs:87-107 | a move joins the trail, ends selection and follows the route under GPS; a still frame has the outcome of the selection keys; guidance stays in step |
| Pathfinding.PathfindHandler.Retrace | Accessibility-Mod-Template/src/PathfindHandler.cs:156-185 | "no breadcrumbs" without a junction, "here" on it; otherwise "no route" exactly when no enemy-avoiding route of at most 100 moves leads to it, else the description of a shortest one |
| Navigation.Wrap | Accessibility-Mod-Template/src/NavigationHandler.cs:702-706 | 0 for an empty range; otherwise the non-negative remainder, in [0, count) |
| Navigation.ModUnique | Accessibility-Mod-Template/src/NavigationHandler.cs:705 | the remainder in [0, b) is unique |
| Navigation.WrapIsRemainder | Accessibility-Mod-Template/src/NavigationHandler.cs:705 | the double truncating remainder equals the Euclidean remainder |
| Navigation.WrapEnds | Accessibility-Mod-Template/src/NavigationHandler.cs:702-706 | stepping back from the first index gives the last, stepping on from the last gives the first |
| Navigation.WrapBackAndForth | Accessibility-Mod-Template/src/NavigationHandler.cs:702-706 | a step forward and a step back return to the same index |
| Navigation.KeyCategoryCases | Accessibility-Mod-Template/src/NavigationHandler.cs:117-130 | an index moved as each key combination demands is the key dispatch's result |
| Navigation.KeyCategoryFromFirst | Accessibility-Mod-Template/src/NavigationHandler.cs:110-130 | from the first category, Ctrl+PageUp reaches the last and Ctrl+PageDown the second |
| Navigation.ClassifyPOI | Accessibility-Mod-Template/src/NavigationHandler.cs:487-503 | never Exits; Enemies, NPCs and Scenery exactly for their kinds; the default POIs exactly for the door kind, the one kind the switch does not list; so the five remaining kinds go to Interactables |
| Navigation.CategoryNamesDistinct | Accessibility-Mod-Template/src/NavigationHandler.cs:685-697 | each category is announced under a word of its own |
| Navigation.GetPieceAtDistance | Accessibility-Mod-Template/src/NavigationHandler.cs:519-529 | distance 0 or less gives the start; otherwise the walk of that many steps, null once a step has no neighbour |
| Navigation.OpenRayWalks | Accessibility-Mod-Template/src/NavigationHandler.cs:338 | walking an open ray always finds a piece |
| Navigation.FormatRelativeDirections | Accessibility-Mod-Template/src/NavigationHandler.cs:612-661 | "here" for an empty path; otherwise the navigation words for the grouped instructions of the path |
| Navigation.BuildDirections | Accessibility-Mod-Template/src/NavigationHandler.cs:539-606 | "here" when the ends coincide; otherwise "unreachable" exactly when no open route of at most 10 moves exists, else the instructions for a shortest one, which may pass live enemies |
| Navigation.FindPathRouteBoundsDirections | Accessibility-Mod-Template/src/NavigationHandler.cs:539-606 | where an enemy-avoiding route of at most 10 moves exists, the directions describe a shortest open route no longer than it, never "unreachable" |
| Navigation.EmptyCacheComplete | Accessibility-Mod-Template/src/NavigationHandler.cs:293-294 | fresh lists: every category has an empty list |
| Navigation.File | Accessibility-Mod-Template/src/NavigationHandler.cs:303-347 | additions keep every category's list present |
| Navigation.FileBucket | Accessibility-Mod-Template/src/NavigationHandler.cs:303-347 | each list gains exactly the items added to it, in order |
| Navigation.BucketAppend | Accessibility-Mod-Template/src/NavigationHandler.cs:288-355 | the items added to a list by two runs of additions are the first run's then the second's |
| Navigation.BucketNone | Accessibility-Mod-Template/src/NavigationHandler.cs:288-355 | additions to other categories add nothing to a list |
| Navigation.BucketMember | Accessibility-Mod-Template/src/NavigationHandler.cs:288-355 | an item in a list was added to that list |
| Navigation.BucketComplete | Accessibility-Mod-Template/src/NavigationHandler.cs:288-355 | every addition shows up in its list |
| Navigation.ExitFilingsSound | Accessibility-Mod-Template/src/NavigationHandler.cs:304-323 | the exit additions go to Exits only, and each is the item of an exit that is not blocked |
| Navigation.ExitFilingsComplete | Accessibility-Mod-Template/src/NavigationHandler.cs:304-323 | every exit that is not blocked has its item added |
| Navigation.RoomEntryFields | Accessibility-Mod-Template/src/NavigationHandler.cs:360-482 | each item of the player's piece has distance 0, direction -1 and that piece, and goes to exactly the category ClassifyPOI gives its kind |
| Navigation.RoomEntriesCover | Accessibility-Mod-Template/src/NavigationHandler.cs:360-482 | everything the player's piece holds has an entry |
| Navigation.BothBuckets | Accessibility-Mod-Template/src/NavigationHandler.cs:360-482 | each entry goes to its own category once and to POIs once, in order |
| Navigation.BothAppend | Accessibility-Mod-Template/src/NavigationHandler.cs:360-482 | doubling entries distributes over concatenation |
| Navigation.PoiFilingBucket | Accessibility-Mod-Template/src/NavigationHandler.cs:341-346 | one ray point of interest goes to POIs exactly once, and to a specific category exactly when ClassifyPOI sends it there |
| Navigation.PoiFilingsInPOIs | Accessibility-Mod-Template/src/NavigationHandler.cs:330-347 | every ray point of interest goes to POIs exactly once, in order |
| Navigation.PoiFilingsSpecific | Accessibility-Mod-Template/src/NavigationHandler.cs:330-347 | what a specific category receives from the rays is a point of interest ClassifyPOI sends there |
| Navigation.PoiFilingsComplete | Accessibility-Mod-Template/src/NavigationHandler.cs:330-347 | every ray point of interest goes to the category ClassifyPOI gives it |
| Navigation.BuiltCache | Accessibility-Mod-Template/src/NavigationHandler.cs:288-355 | after a rebuild all six categories have a list |
| Navigation.IsBuiltMeans | Accessibility-Mod-Template/src/NavigationHandler.cs:288-355 | the guarded statement says exactly that the cache is the rebuilt one |
| Navigation.CacheList | Accessibility-Mod-Template/src/NavigationHandler.cs:302-347 | each list is what the exits, the player's piece and the rays add to it, in that order |
| Navigation.FileAppend | Accessibility-Mod-Template/src/NavigationHandler.cs:288-355 | making two runs of additions is making the first, then the second |
| Navigation.BuiltInStages | Accessibility-Mod-Template/src/NavigationHandler.cs:302-347 | the cache is built in three stages: exits, the player's piece, the rays |
| Navigation.FileBoth | Accessibility-Mod-Template/src/NavigationHandler.cs:360-482 | the pairs for successive entries add up to the pairs for all of them |
| Navigation.OccupantsChain | Accessibility-Mod-Template/src/NavigationHandler.cs:362-421 | the enemy, NPC and container checks in turn make the occupants' additions |
| Navigation.FeaturesChain | Accessibility-Mod-Template/src/NavigationHandler.cs:423-481 | the trap, shop, fishing and cards checks in turn make the features' additions |
| Navigation.FileThree | Accessibility-Mod-Template/src/NavigationHandler.cs:290-347 | three runs of additions to fresh lists leave each list with the three runs' items for it, in order |
| Navigation.PoiFilingsNoExits | Accessibility-Mod-Template/src/NavigationHandler.cs:341-346 | the rays add nothing to Exits |
| Navigation.RoomBuckets | Accessibility-Mod-Template/src/NavigationHandler.cs:360-482 | the player's piece adds nothing to Exits, every entry's item to POIs, and to a specific category exactly its entries |
| Navigation.ExitFilingsOnlyExits | Accessibility-Mod-Template/src/NavigationHandler.cs:315 | the exits add to Exits only |
| Navigation.CachedExitOpen | Accessibility-Mod-Template/src/NavigationHandler.cs:304-323 | after a rebuild, each Exits item is one step away in a genuine direction, leads to the neighbour there, and the move is not blocked |
| Navigation.CachedExitComplete | Accessibility-Mod-Template/src/NavigationHandler.cs:304-323 | after a rebuild, every open direction has its Exits item |
| Navigation.CachedPOIs | Accessibility-Mod-Template/src/NavigationHandler.cs:326-347 | after a rebuild, POIs lists the player's own items and then every ray point of interest, each exactly once, in order |
| Navigation.CachedSpecificSound | Accessibility-Mod-Template/src/NavigationHandler.cs:326-347 | a specific category holds only items ClassifyPOI sends there: things on the player's piece at distance 0 or ray points of interest |
| Navigation.CachedPoiComplete | Accessibility-Mod-Template/src/NavigationHandler.cs:341-342 | every ray point of interest is in the category ClassifyPOI gives it |
| Navigation.CachedRoomComplete | Accessibility-Mod-Template/src/NavigationHandler.cs:360-482 | every thing on the player's piece has a distance-0 item in its category |
| Navigation.PoiItemHasPiece | Accessibility-Mod-Template/src/NavigationHandler.cs:338 | every ray point of interest has a piece to walk to |
| Navigation.ExitFilingsPieces | Accessibility-Mod-Template/src/NavigationHandler.cs:309 | every exit item names a piece of the level |
| Navigation.BothPieces | Accessibility-Mod-Template/src/NavigationHandler.cs:371 | doubling entries keeps every item's piece in the level |
| Navigation.PoiFilingsPieces | Accessibility-Mod-Template/src/NavigationHandler.cs:338 | every ray item names a piece of the level, or none |
| Navigation.CachedPiecesInLevel | Accessibility-Mod-Template/src/NavigationHandler.cs:288-355 | every cached item names a piece of the level, or none |
| Navigation.NavigationHandler.constructor | Accessibility-Mod-Template/src/NavigationHandler.cs:70-80 | no game manager, no last piece, facing -1, indices 0, an empty cache |
| Navigation.NavigationHandler.SetGameManager | Accessibility-Mod-Template/src/NavigationHandler.cs:89-92 | the game manager is known afterwards |
| Navigation.NavigationHandler.Reset | Accessibility-Mod-Template/src/NavigationHandler.cs:158-167 | no game manager, no last piece, facing -1, both indices 0, cache empty |
| Navigation.NavigationHandler.InvalidateCache | Accessibility-Mod-Template/src/NavigationHandler.cs:278-283 | the cache is empty and both indices are 0 |
| Navigation.NavigationHandler.Add | Accessibility-Mod-Template/src/NavigationHandler.cs:315 | the item is appended to its category's list |
| Navigation.NavigationHandler.AddRoomEntry | Accessibility-Mod-Template/src/NavigationHandler.cs:363-375 | a present thing is appended to its category and to POIs |
| Navigation.NavigationHandler.AddCurrentRoomItems | Accessibility-Mod-Template/src/NavigationHandler.cs:360-482 | each thing on the piece, in the order of the checks, is appended to its category and to POIs |
| Navigation.NavigationHandler.RebuildCache | Accessibility-Mod-Template/src/NavigationHandler.cs:288-355 | fresh lists, left empty without a game manager or piece, else exactly the built cache for the piece and facing |
| Navigation.NavigationHandler.AddExits | Accessibility-Mod-Template/src/NavigationHandler.cs:304-323 | one Exits item per exit that is not blocked, in order |
| Navigation.NavigationHandler.AddNearbyPOIs | Accessibility-Mod-Template/src/NavigationHandler.cs:330-347 | each ray point of interest goes to its category and, unless that is POIs, to POIs |
| Navigation.NavigationHandler.EnsureCache | Accessibility-Mod-Template/src/NavigationHandler.cs:269-273 | a filled cache is kept; an empty one is rebuilt for the reported piece and facing |
| Navigation.NavigationHandler.CycleCategory | Accessibility-Mod-Template/src/NavigationHandler.cs:176-198 | the category index steps with wrap-around over the six, the item index becomes 0, and the new category is announced with "no items" or its first item and count |
| Navigation.NavigationHandler.CycleItem | Accessibility-Mod-Template/src/NavigationHandler.cs:203-225 | the category is kept; in an empty one "no items" with the index unchanged; otherwise the index steps with wrap-around over the list and the item is announced with its position |
| Navigation.NavigationHandler.AnnounceDirections | Accessibility-Mod-Template/src/NavigationHandler.cs:230-260 | both indices are kept; "unreachable" for an empty category, "here" for a distance-0 item, "unreachable" without a piece, else the directions to the item from the reported piece and facing |
| Navigation.NavigationHandler.DirectionsFor | Accessibility-Mod-Template/src/NavigationHandler.cs:237-259 | the answer for the selected item, as AnnounceDirections gives it |
| Navigation.NavigationHandler.ItemPieceInLevel | Accessibility-Mod-Template/src/NavigationHandler.cs:243-258 | every item of a filled cache names a piece of the level, or none |
| Navigation.NavigationHandler.Update | Accessibility-Mod-Template/src/NavigationHandler.cs:97-153 | nothing without a game manager or piece; a new piece or facing empties the cache and zeroes both indices; the piece and facing are recorded; then each key has the outcome of its handler, and a quiet frame says nothing |
| Navigation.NavigationHandler.HandleFrame | Accessibility-Mod-Template/src/NavigationHandler.cs:108-152 | the piece and facing are recorded, a move or turn resets the cache and indices, then each key has the outcome of its handler and a quiet frame says nothing |
| Navigation.NavigationHandler.Track | Accessibility-Mod-Template/src/NavigationHandler.cs:108-115 | a move or turn happened exactly when the piece or facing differs; then the cache is emptied and both indices zeroed, otherwise nothing changes; both are recorded |
| Navigation.NavigationHandler.HandleKeys | Accessibility-Mod-Template/src/NavigationHandler.cs:117-152 | no key changes nothing; Ctrl+PageUp/PageDown have the outcome of cycling the category back or on, PageUp/PageDown without Ctrl that of cycling the item, End that of asking for directions |
| Navigation.NavigationHandler.CreateLists | Accessibility-Mod-Template/src/NavigationHandler.cs:290-294 | an empty list for every category |

## Left out

- Speech output: `ScreenReader.Say`/`SayQueued` call a foreign library. They are modelled as appending to the `spoken` log.
- Localisation: `Loc.Get` and `string.Format` are replaced by message keys with arguments. Spoken strings joined with ", " or ". " are kept as lists of messages.
- The game engine: `Object.FindObjectOfType`, `Input.GetKey`/`GetKeyDown` and `gameObject.activeInHierarchy` become parameters and cell fields.
- The level is fixed for a handler's lifetime. A level change is modelled only through `Reset`.
- The pathfinding handler's visited set is passed to the navigation handler as a parameter. The source reaches it through a global instance.
- Debug logging is not modelled.
- `AutoWalkToUnexplored`, which `Main` calls, is not part of this model.
- Other handlers are not part of this model: menus, inventory, combat, word puzzles, text interception and room announcements. `RoomHandler` carries its own partial copy of the blocked-ahead check without the height and word rules. That copy is not modelled.
- Null entries inside the wall list are not modelled; the wall scans assume non-null walls. A null blocker entry counts as an inactive one.
- A point of interest's type key is a closed set of kinds. `ClassifyPOI`'s default branch is reached only by the door kind.
- Helper methods group statements the source writes inline: `AddExits`, `AddNearbyPOIs`, `AddRoomEntry`, `Track`, `HandleKeys`, `DirectionsFor`, `CreateLists`, `SkipRun`, `ExpandPiece`, `ExpandLevel`, `RecordNeighbour`, `VisitNeighbours`, `CollectReached`, `SearchStep`, `ExpandFrom`, `ExploreAll`, `StoreRoute`, `StoreTargets`, `PresentTargets`, `FollowFreshRoute`, `NoteJunction`, `RecordVisit`, `RecordFirstPiece`, `TrackMovement`, `FollowRoute`, `HandleSelectionKeys`, both `HandleFrame` methods and the `Clear*` methods.
- Pathfinder.SortByDistanceSpec: `List.Sort` is not stable. The model sorts by insertion, and only the ordering and the permutation are relied on.
- Navigation.NavigationHandler.AddCurrentRoomItems: like the source, it does not consult the container's activity in the scene. The ray scan and `ScanCurrentRoom` do consult it.
- Navigation.NavigationHandler.RebuildCache: the game manager's piece and facing at rebuild time are taken to be those `Update` just recorded.
- Navigation.NavigationHandler.HandleKeys: a key handler reached through another key's early `return` is not modelled separately. The first matching branch wins, as in the source.
- RoomScanner.IsDirectionBlocked: the blocker rule always scans the level's blockers. The source skips it when no game manager is passed (`RoomScanner.cs:346`). Both handlers call into the scanner and the searches only once the game manager is known, so the case does not arise.
- Integer widths: C# `int` overflow is not modelled. Indices, distances and counts stay far below 2^31.
