/**
 * Pathfinder: breadth-first search over the level's pieces. A level-counted
 * search finds a route to one piece within a depth cap; an exhaustive search
 * collects every reachable target with its distance and route; routes become
 * turn-by-turn instructions.
 */
module Pathfinder {
  import opened Wrappers
  import opened Grid
  import opened Messages
  import opened Direction
  import opened RoomScanner
  import opened Routes

  const DefaultMaxDepth := 100

  /** How the search first reached a piece: from which piece, moving in which direction. */
  datatype ParentEntry = ParentEntry(parent: Piece, direction: int)

  // ---------------------------------------------------------------------------
  // Routes and the search invariant
  // ---------------------------------------------------------------------------

  /**
   * `path` leads from `s` to `t`: every step has a neighbour and crosses an
   * edge the traversal rules leave open, and, when live enemies are avoided,
   * no piece strictly between `s` and `t` holds one.
   */
  predicate RouteFrom(g: Grid, s: Piece, path: seq<int>, t: Piece, avoidEnemies: bool)
    requires g.Valid() && g.Has(s)
    decreases |path|
  {
    if path == [] then s == t
    else
      match GetAdjacentPiece(g, Some(s), path[0])
      case None => false
      case Some(next) =>
        && !IsDirectionBlocked(g, s, Some(next), path[0])
        && (avoidEnemies && |path| > 1 ==> !LiveEnemy(g, next))
        && RouteFrom(g, next, path[1..], t, avoidEnemies)
  }

  /** A route replays, neighbour by neighbour, to its end piece. */
  lemma {:induction false} RouteReplays(g: Grid, s: Piece, path: seq<int>, t: Piece, avoidEnemies: bool)
    requires g.Valid() && g.Has(s) && RouteFrom(g, s, path, t, avoidEnemies)
    ensures Follow(g, s, path) == Some(t)
    decreases |path|
  {
    if path != [] {
      var next := GetAdjacentPiece(g, Some(s), path[0]).value;
      RouteReplays(g, next, path[1..], t, avoidEnemies);
    }
  }

  /** A route that avoids live enemies is also a route when they are not avoided. */
  lemma {:induction false} AvoidingRouteIsRoute(g: Grid, s: Piece, path: seq<int>, t: Piece)
    requires g.Valid() && g.Has(s) && RouteFrom(g, s, path, t, true)
    ensures RouteFrom(g, s, path, t, false)
    decreases |path|
  {
    if path != [] {
      var next := GetAdjacentPiece(g, Some(s), path[0]).value;
      AvoidingRouteIsRoute(g, next, path[1..], t);
    }
  }

  /** The parent link of `child` is an open edge one level deeper than an expandable parent. */
  ghost predicate EdgeOk(g: Grid, start: Piece, child: Piece, e: ParentEntry, dist: map<Piece, nat>, avoidEnemies: bool)
    requires g.Valid()
  {
    && child in dist && e.parent in dist && g.Has(e.parent)
    && GetAdjacentPiece(g, Some(e.parent), e.direction) == Some(child)
    && !IsDirectionBlocked(g, e.parent, Some(child), e.direction)
    && dist[child] == dist[e.parent] + 1
    && (e.parent == start || !avoidEnemies || !LiveEnemy(g, e.parent))
  }

  /** Every parent link is an open edge one level up. */
  ghost predicate EdgesOk(g: Grid, start: Piece, visited: set<Piece>, parent: map<Piece, ParentEntry>,
                          dist: map<Piece, nat>, avoidEnemies: bool)
    requires g.Valid()
  {
    forall p | p in parent :: p in visited && EdgeOk(g, start, p, parent[p], dist, avoidEnemies)
  }

  /**
   * The search invariant: the start is visited at distance 0 and has no
   * parent; every other visited piece has a parent link that is an open edge.
   */
  ghost predicate ParentsOk(g: Grid, start: Piece, visited: set<Piece>, parent: map<Piece, ParentEntry>,
                            dist: map<Piece, nat>, avoidEnemies: bool)
    requires g.Valid()
  {
    && start in visited && visited == dist.Keys && dist[start] == 0 && start !in parent
    && (forall p | p in visited :: g.Has(p) && (p == start || p in parent))
    && EdgesOk(g, start, visited, parent, dist, avoidEnemies)
  }

  lemma EdgesOkAdd(g: Grid, start: Piece, visited: set<Piece>, parent: map<Piece, ParentEntry>,
                   dist: map<Piece, nat>, avoidEnemies: bool, current: Piece, dir: int, next: Piece)
    requires g.Valid() && ParentsOk(g, start, visited, parent, dist, avoidEnemies)
    requires current in visited && next !in visited && g.Has(next)
    requires GetAdjacentPiece(g, Some(current), dir) == Some(next)
    requires !IsDirectionBlocked(g, current, Some(next), dir)
    requires current == start || !avoidEnemies || !LiveEnemy(g, current)
    ensures EdgesOk(g, start, visited + {next}, parent[next := ParentEntry(current, dir)],
                    dist[next := dist[current] + 1], avoidEnemies)
  {
    var parent' := parent[next := ParentEntry(current, dir)];
    var dist': map<Piece, nat> := dist[next := dist[current] + 1];
    forall p | p in parent'
      ensures EdgeOk(g, start, p, parent'[p], dist', avoidEnemies)
    {
      if p != next {
        assert EdgeOk(g, start, p, parent[p], dist, avoidEnemies);
      }
    }
  }

  /** Recording a newly found piece keeps the search invariant. */
  lemma ParentsOkAdd(g: Grid, start: Piece, visited: set<Piece>, parent: map<Piece, ParentEntry>,
                     dist: map<Piece, nat>, avoidEnemies: bool, current: Piece, dir: int, next: Piece)
    requires g.Valid() && ParentsOk(g, start, visited, parent, dist, avoidEnemies)
    requires current in visited && next !in visited && g.Has(next)
    requires GetAdjacentPiece(g, Some(current), dir) == Some(next)
    requires !IsDirectionBlocked(g, current, Some(next), dir)
    requires current == start || !avoidEnemies || !LiveEnemy(g, current)
    ensures ParentsOk(g, start, visited + {next}, parent[next := ParentEntry(current, dir)],
                      dist[next := dist[current] + 1], avoidEnemies)
  {
    EdgesOkAdd(g, start, visited, parent, dist, avoidEnemies, current, dir, next);
  }

  /**
   * ReconstructPath: walk the parent links back from `target` to the start,
   * collecting directions. The source appends and then reverses the list; the
   * model prepends, which yields the same list.
   */
  method ReconstructPath(g: Grid, start: Piece, target: Piece, parent: map<Piece, ParentEntry>,
                         ghost visited: set<Piece>, ghost dist: map<Piece, nat>, ghost avoidEnemies: bool)
    returns (path: seq<int>)
    requires g.Valid() && ParentsOk(g, start, visited, parent, dist, avoidEnemies) && target in visited
    ensures RouteFrom(g, start, path, target, avoidEnemies)
    ensures |path| == dist[target]
  {
    path := [];
    var step := target;
    while step in parent
      invariant step in visited
      invariant RouteFrom(g, step, path, target, avoidEnemies)
      invariant |path| + dist[step] == dist[target]
      invariant path != [] ==> step == start || !avoidEnemies || !LiveEnemy(g, step)
      decreases dist[step]
    {
      var entry := parent[step];
      assert EdgeOk(g, start, step, entry, dist, avoidEnemies);
      assert ([entry.direction] + path)[1..] == path;
      path := [entry.direction] + path;
      step := entry.parent;
    }
  }

  // ---------------------------------------------------------------------------
  // Level-counted search (FindPath, and the navigation handler's search)
  // ---------------------------------------------------------------------------

  /** Some route of at most `maxDepth` moves leads from `s` to `t`. */
  ghost predicate ReachableWithin(g: Grid, s: Piece, t: Piece, maxDepth: int, avoidEnemies: bool)
    requires g.Valid() && g.Has(s)
  {
    exists r | RouteFrom(g, s, r, t, avoidEnemies) :: |r| <= maxDepth
  }

  /** `path` leads from `s` to `t` and no route between them is shorter. */
  ghost predicate Shortest(g: Grid, s: Piece, path: seq<int>, t: Piece, avoidEnemies: bool)
    requires g.Valid() && g.Has(s)
  {
    && RouteFrom(g, s, path, t, avoidEnemies)
    && forall r | RouteFrom(g, s, r, t, avoidEnemies) :: |path| <= |r|
  }

  /**
   * The search queue: every queued piece is visited and may be expanded (it
   * is the start or, when live enemies are avoided, holds none); the first
   * `near` of them lie at `level`, the rest one level further.
   */
  ghost predicate Frontier(g: Grid, start: Piece, avoidEnemies: bool, queue: seq<Piece>, visited: set<Piece>,
                           dist: map<Piece, nat>, level: nat, near: nat)
    requires g.Valid()
  {
    && near <= |queue|
    && (forall k | 0 <= k < |queue| ::
          && queue[k] in visited && queue[k] in dist && g.Has(queue[k])
          && (queue[k] == start || !avoidEnemies || !LiveEnemy(g, queue[k]))
          && dist[queue[k]] == if k < near then level else level + 1)
  }

  lemma FrontierDequeue(g: Grid, start: Piece, avoidEnemies: bool, queue: seq<Piece>, visited: set<Piece>,
                        dist: map<Piece, nat>, level: nat, near: nat)
    requires g.Valid() && Frontier(g, start, avoidEnemies, queue, visited, dist, level, near) && near >= 1
    ensures queue[0] in visited && queue[0] in dist && g.Has(queue[0]) && dist[queue[0]] == level
    ensures queue[0] == start || !avoidEnemies || !LiveEnemy(g, queue[0])
    ensures Frontier(g, start, avoidEnemies, queue[1..], visited, dist, level, near - 1)
  {
    assert forall k | 0 <= k < |queue[1..]| :: queue[1..][k] == queue[k + 1];
  }

  lemma FrontierEnqueue(g: Grid, start: Piece, avoidEnemies: bool, queue: seq<Piece>, visited: set<Piece>,
                        dist: map<Piece, nat>, level: nat, near: nat, next: Piece, d: nat)
    requires g.Valid() && Frontier(g, start, avoidEnemies, queue, visited, dist, level, near)
    requires next !in visited && g.Has(next) && d == level + 1
    requires next == start || !avoidEnemies || !LiveEnemy(g, next)
    ensures Frontier(g, start, avoidEnemies, queue + [next], visited + {next}, dist[next := d], level, near)
  {
    var queue' := queue + [next];
    assert forall k | 0 <= k < |queue| :: queue'[k] == queue[k] && queue[k] != next;
  }

  lemma FrontierNextLevel(g: Grid, start: Piece, avoidEnemies: bool, queue: seq<Piece>, visited: set<Piece>,
                          dist: map<Piece, nat>, level: nat)
    requires g.Valid() && Frontier(g, start, avoidEnemies, queue, visited, dist, level, 0)
    ensures Frontier(g, start, avoidEnemies, queue, visited, dist, level + 1, |queue|)
  {
  }

  /** The search may enter `n`: it is the target, live enemies are not avoided, or it holds none. */
  predicate Enterable(g: Grid, target: Piece, avoidEnemies: bool, n: Piece)
    requires g.Has(n)
  {
    n == target || !avoidEnemies || !LiveEnemy(g, n)
  }

  /**
   * The neighbour of `p` in direction `dir`, when the edge is open and the
   * search may enter it, is recorded at most one level deeper than `p`.
   */
  ghost predicate StepRecorded(g: Grid, target: Piece, avoidEnemies: bool, visited: set<Piece>,
                               dist: map<Piece, nat>, p: Piece, dir: int)
    requires g.Valid() && g.Has(p)
  {
    match GetAdjacentPiece(g, Some(p), dir)
    case None => true
    case Some(next) =>
      !IsDirectionBlocked(g, p, Some(next), dir) && Enterable(g, target, avoidEnemies, next) ==>
        next in visited && next in dist && p in dist && dist[next] <= dist[p] + 1
  }

  /** `p` has been expanded in the directions below `n`. */
  ghost predicate ExpandedBelow(g: Grid, target: Piece, avoidEnemies: bool, visited: set<Piece>,
                                dist: map<Piece, nat>, p: Piece, n: int)
    requires g.Valid() && g.Has(p)
  {
    forall dir | 0 <= dir < n :: StepRecorded(g, target, avoidEnemies, visited, dist, p, dir)
  }

  /** One more recorded step extends the expanded directions by one. */
  lemma ExpandedBelowNext(g: Grid, target: Piece, avoidEnemies: bool, visited: set<Piece>,
                          dist: map<Piece, nat>, p: Piece, n: int)
    requires g.Valid() && g.Has(p) && ExpandedBelow(g, target, avoidEnemies, visited, dist, p, n)
    requires StepRecorded(g, target, avoidEnemies, visited, dist, p, n)
    ensures ExpandedBelow(g, target, avoidEnemies, visited, dist, p, n + 1)
  {
  }

  /** `p` has been expanded in all four directions. */
  ghost predicate Expanded(g: Grid, target: Piece, avoidEnemies: bool, visited: set<Piece>,
                           dist: map<Piece, nat>, p: Piece)
    requires g.Valid() && g.Has(p)
  {
    ExpandedBelow(g, target, avoidEnemies, visited, dist, p, 4)
  }

  /** Recording a new piece keeps every expansion already done. */
  lemma ExpandedGrow(g: Grid, target: Piece, avoidEnemies: bool, visited: set<Piece>, dist: map<Piece, nat>,
                     p: Piece, n: int, x: Piece, d: nat)
    requires g.Valid() && g.Has(p) && p in dist && x !in dist
    requires ExpandedBelow(g, target, avoidEnemies, visited, dist, p, n)
    ensures ExpandedBelow(g, target, avoidEnemies, visited + {x}, dist[x := d], p, n)
  {
    var visited', dist' := visited + {x}, dist[x := d];
    forall dir | 0 <= dir < n
      ensures StepRecorded(g, target, avoidEnemies, visited', dist', p, dir)
    {
      assert StepRecorded(g, target, avoidEnemies, visited, dist, p, dir);
    }
  }

  /** Every visited piece below level `depth`, and every piece in `done`, has been expanded. */
  ghost predicate Closed(g: Grid, target: Piece, avoidEnemies: bool, visited: set<Piece>, dist: map<Piece, nat>,
                         depth: nat, done: set<Piece>)
    requires g.Valid()
  {
    forall p | p in visited && p in dist && (dist[p] < depth || p in done) ::
      g.Has(p) && Expanded(g, target, avoidEnemies, visited, dist, p)
  }

  /** Recording a new piece at level `depth` or deeper keeps the expanded pieces expanded. */
  lemma ClosedGrow(g: Grid, target: Piece, avoidEnemies: bool, visited: set<Piece>, dist: map<Piece, nat>,
                   depth: nat, done: set<Piece>, x: Piece, d: nat)
    requires g.Valid() && Closed(g, target, avoidEnemies, visited, dist, depth, done)
    requires visited == dist.Keys && x !in dist && x !in done && d >= depth
    ensures Closed(g, target, avoidEnemies, visited + {x}, dist[x := d], depth, done)
  {
    forall p | p in visited + {x} && p in dist[x := d] && (dist[x := d][p] < depth || p in done)
      ensures g.Has(p) && Expanded(g, target, avoidEnemies, visited + {x}, dist[x := d], p)
    {
      ExpandedGrow(g, target, avoidEnemies, visited, dist, p, 4, x, d);
    }
  }

  /**
   * The levels the queue holds: every visited piece lies at most one level
   * past `depth`; those one level past are queued, and so are those at
   * `depth` not yet expanded (`done` holds the expanded ones).
   */
  ghost predicate Layered(g: Grid, start: Piece, avoidEnemies: bool, queue: seq<Piece>, visited: set<Piece>,
                          dist: map<Piece, nat>, depth: nat, near: nat, done: set<Piece>)
    requires g.Valid()
  {
    && Frontier(g, start, avoidEnemies, queue, visited, dist, depth, near)
    && (forall p | p in visited :: p in dist && dist[p] <= depth + 1)
    && (forall p | p in visited && p in dist && dist[p] == depth + 1 :: p in queue)
    && (forall p | p in visited && p in dist && dist[p] == depth && p !in done :: p in queue)
  }

  /**
   * The state at the start of a round: the queue is exactly level `depth`,
   * nothing lies deeper, and every piece nearer than `depth` is expanded.
   */
  ghost predicate LevelReady(g: Grid, start: Piece, target: Piece, avoidEnemies: bool, queue: seq<Piece>,
                             visited: set<Piece>, dist: map<Piece, nat>, depth: nat)
    requires g.Valid()
  {
    && Frontier(g, start, avoidEnemies, queue, visited, dist, depth, |queue|)
    && (forall p | p in visited :: p in dist && dist[p] <= depth)
    && (forall p | p in visited && p in dist && dist[p] == depth :: p in queue)
    && Closed(g, target, avoidEnemies, visited, dist, depth, {})
  }

  lemma LayeredDequeue(g: Grid, start: Piece, avoidEnemies: bool, queue: seq<Piece>, visited: set<Piece>,
                       dist: map<Piece, nat>, depth: nat, near: nat, done: set<Piece>)
    requires g.Valid() && Layered(g, start, avoidEnemies, queue, visited, dist, depth, near, done) && near >= 1
    ensures Layered(g, start, avoidEnemies, queue[1..], visited, dist, depth, near - 1, done + {queue[0]})
  {
    FrontierDequeue(g, start, avoidEnemies, queue, visited, dist, depth, near);
    forall p | p in queue && p != queue[0]
      ensures p in queue[1..]
    {
      var k :| 0 <= k < |queue| && queue[k] == p;
      assert queue[1..][k - 1] == p;
    }
  }

  /**
   * The state while `current` (at level `depth`) is expanded, directions
   * below `dir` done: the search invariant, the levels, the expanded pieces
   * and the partial expansion of `current`.
   */
  ghost predicate Expanding(g: Grid, start: Piece, target: Piece, avoidEnemies: bool, depth: nat, remaining: nat,
                            done: set<Piece>, current: Piece, visited: set<Piece>, parent: map<Piece, ParentEntry>,
                            queue: seq<Piece>, dist: map<Piece, nat>, dir: int)
    requires g.Valid()
  {
    && ParentsOk(g, start, visited, parent, dist, avoidEnemies) && target !in visited && done <= visited
    && current in visited && g.Has(current) && dist[current] == depth
    && (current == start || !avoidEnemies || !LiveEnemy(g, current))
    && Layered(g, start, avoidEnemies, queue, visited, dist, depth, remaining, done + {current})
    && Closed(g, target, avoidEnemies, visited, dist, depth, done)
    && ExpandedBelow(g, target, avoidEnemies, visited, dist, current, dir)
  }

  /** A neighbour that is missing, already visited, behind a blocked edge or not enterable needs no recording. */
  lemma ExpandSkip(g: Grid, start: Piece, target: Piece, avoidEnemies: bool, depth: nat, remaining: nat,
                   done: set<Piece>, current: Piece, visited: set<Piece>, parent: map<Piece, ParentEntry>,
                   queue: seq<Piece>, dist: map<Piece, nat>, dir: int)
    requires g.Valid()
    requires Expanding(g, start, target, avoidEnemies, depth, remaining, done, current, visited, parent, queue, dist, dir)
    requires var next := GetAdjacentPiece(g, Some(current), dir);
             || next.None? || next.value in visited || IsDirectionBlocked(g, current, next, dir)
             || (avoidEnemies && next.value != target && LiveEnemy(g, next.value))
    ensures Expanding(g, start, target, avoidEnemies, depth, remaining, done, current, visited, parent, queue, dist, dir + 1)
  {
    assert StepRecorded(g, target, avoidEnemies, visited, dist, current, dir);
  }

  /**
   * Recording the open neighbour `next` of `current` (in direction `dir`)
   * one level deeper and queueing it keeps the search invariant; unless it
   * is the target, it also keeps the levels and the expanded pieces, and
   * extends the expansion of `current` past `dir`.
   */
  lemma ExpandRecord(g: Grid, start: Piece, target: Piece, avoidEnemies: bool, depth: nat, remaining: nat,
                     done: set<Piece>, current: Piece, visited: set<Piece>, parent: map<Piece, ParentEntry>,
                     queue: seq<Piece>, dist: map<Piece, nat>, dir: int, next: Piece)
    requires g.Valid()
    requires Expanding(g, start, target, avoidEnemies, depth, remaining, done, current, visited, parent, queue, dist, dir)
    requires next !in visited && g.Has(next) && GetAdjacentPiece(g, Some(current), dir) == Some(next)
    requires !IsDirectionBlocked(g, current, Some(next), dir)
    requires !(avoidEnemies && next != target && LiveEnemy(g, next))
    ensures ParentsOk(g, start, visited + {next}, parent[next := ParentEntry(current, dir)], dist[next := depth + 1],
                      avoidEnemies)
    ensures next in dist[next := depth + 1] && dist[next := depth + 1][next] == depth + 1
    ensures next != target ==>
              Expanding(g, start, target, avoidEnemies, depth, remaining, done, current, visited + {next},
                        parent[next := ParentEntry(current, dir)], queue + [next], dist[next := depth + 1], dir + 1)
  {
    ParentsOkAdd(g, start, visited, parent, dist, avoidEnemies, current, dir, next);
    if next != target {
      assert visited == dist.Keys && next != current;
      RecordLayered(g, start, target, avoidEnemies, depth, remaining, done, current, dir, next, visited, queue, dist);
      assert dist[next := depth + 1][current] == depth;
    }
  }

  /**
   * Recording the open neighbour `next` of `current` (in direction `dir`),
   * one level deeper, and queueing it keeps the levels and the expanded
   * pieces, and extends the expansion of `current` past `dir`.
   */
  lemma RecordLayered(g: Grid, start: Piece, target: Piece, avoidEnemies: bool, depth: nat, remaining: nat,
                      done: set<Piece>, current: Piece, dir: int, next: Piece, visited: set<Piece>,
                      queue: seq<Piece>, dist: map<Piece, nat>)
    requires g.Valid() && visited == dist.Keys && done <= visited
    requires Layered(g, start, avoidEnemies, queue, visited, dist, depth, remaining, done + {current})
    requires Closed(g, target, avoidEnemies, visited, dist, depth, done)
    requires current in visited && g.Has(current) && dist[current] == depth
    requires ExpandedBelow(g, target, avoidEnemies, visited, dist, current, dir)
    requires next !in visited && g.Has(next) && GetAdjacentPiece(g, Some(current), dir) == Some(next)
    requires next == start || !avoidEnemies || !LiveEnemy(g, next)
    ensures Layered(g, start, avoidEnemies, queue + [next], visited + {next}, dist[next := depth + 1],
                    depth, remaining, done + {current})
    ensures Closed(g, target, avoidEnemies, visited + {next}, dist[next := depth + 1], depth, done)
    ensures ExpandedBelow(g, target, avoidEnemies, visited + {next}, dist[next := depth + 1], current, dir + 1)
  {
    FrontierEnqueue(g, start, avoidEnemies, queue, visited, dist, depth, remaining, next, depth + 1);
    ClosedGrow(g, target, avoidEnemies, visited, dist, depth, done, next, depth + 1);
    ExpandedGrow(g, target, avoidEnemies, visited, dist, current, dir, next, depth + 1);
    assert StepRecorded(g, target, avoidEnemies, visited + {next}, dist[next := depth + 1], current, dir);
  }


  /** An expanded piece added to `done` keeps every piece of `done` expanded. */
  lemma ClosedAdd(g: Grid, target: Piece, avoidEnemies: bool, visited: set<Piece>, dist: map<Piece, nat>,
                  depth: nat, done: set<Piece>, current: Piece)
    requires g.Valid() && Closed(g, target, avoidEnemies, visited, dist, depth, done)
    requires g.Has(current) && ExpandedBelow(g, target, avoidEnemies, visited, dist, current, 4)
    ensures Closed(g, target, avoidEnemies, visited, dist, depth, done + {current})
  {
  }

  /** A round that has expanded its whole level leaves the next level ready. */
  lemma LevelDone(g: Grid, start: Piece, target: Piece, avoidEnemies: bool, queue: seq<Piece>,
                  visited: set<Piece>, dist: map<Piece, nat>, depth: nat, done: set<Piece>)
    requires g.Valid() && Layered(g, start, avoidEnemies, queue, visited, dist, depth, 0, done)
    requires Closed(g, target, avoidEnemies, visited, dist, depth, done)
    ensures LevelReady(g, start, target, avoidEnemies, queue, visited, dist, depth + 1)
  {
    FrontierNextLevel(g, start, avoidEnemies, queue, visited, dist, depth);
    assert forall p | p in queue :: dist[p] == depth + 1;
  }

  /**
   * Completeness of the search: when every piece nearer than `depth` is
   * expanded, the end of a route from a visited piece `s` is visited, no
   * further than `s` plus the route's length, provided the route ends within
   * `depth` or every visited piece is nearer than `depth`.
   */
  lemma {:induction false} RouteFound(g: Grid, start: Piece, target: Piece, avoidEnemies: bool, visited: set<Piece>,
                                      parent: map<Piece, ParentEntry>, dist: map<Piece, nat>, depth: nat,
                                      s: Piece, r: seq<int>, t: Piece)
    requires g.Valid() && ParentsOk(g, start, visited, parent, dist, avoidEnemies)
    requires Closed(g, target, avoidEnemies, visited, dist, depth, {})
    requires s in visited && RouteFrom(g, s, r, t, avoidEnemies)
    requires g.Has(t) && Enterable(g, target, avoidEnemies, t)
    requires dist[s] + |r| <= depth || forall p | p in visited :: dist[p] < depth
    ensures t in visited && dist[t] <= dist[s] + |r|
    decreases |r|
  {
    if r != [] {
      var next := GetAdjacentPiece(g, Some(s), r[0]).value;
      assert Expanded(g, target, avoidEnemies, visited, dist, s);
      assert StepRecorded(g, target, avoidEnemies, visited, dist, s, r[0]);
      if |r| == 1 {
        assert r[1..] == [];
      }
      RouteFound(g, start, target, avoidEnemies, visited, parent, dist, depth, next, r[1..], t);
    }
  }

  /** While the target is unvisited and every piece nearer than `depth` is expanded, no route reaches it within `depth`. */
  lemma NoRouteWithin(g: Grid, start: Piece, target: Piece, avoidEnemies: bool, visited: set<Piece>,
                      parent: map<Piece, ParentEntry>, dist: map<Piece, nat>, depth: nat)
    requires g.Valid() && ParentsOk(g, start, visited, parent, dist, avoidEnemies) && g.Has(target)
    requires Closed(g, target, avoidEnemies, visited, dist, depth, {}) && target !in visited
    ensures forall r | RouteFrom(g, start, r, target, avoidEnemies) :: |r| > depth
  {
    forall r | RouteFrom(g, start, r, target, avoidEnemies)
      ensures |r| > depth
    {
      if |r| <= depth {
        RouteFound(g, start, target, avoidEnemies, visited, parent, dist, depth, start, r, target);
      }
    }
  }

  /** Once every visited piece is expanded and the target is unvisited, no route reaches it. */
  lemma NoRouteAtAll(g: Grid, start: Piece, target: Piece, avoidEnemies: bool, visited: set<Piece>,
                     parent: map<Piece, ParentEntry>, dist: map<Piece, nat>, depth: nat)
    requires g.Valid() && ParentsOk(g, start, visited, parent, dist, avoidEnemies) && g.Has(target)
    requires Closed(g, target, avoidEnemies, visited, dist, depth, {}) && target !in visited
    requires forall p | p in visited :: dist[p] < depth
    ensures forall r :: !RouteFrom(g, start, r, target, avoidEnemies)
  {
    forall r | RouteFrom(g, start, r, target, avoidEnemies)
      ensures false
    {
      RouteFound(g, start, target, avoidEnemies, visited, parent, dist, depth, start, r, target);
    }
  }

  /**
   * One round of the level-counted search: expand the `levelSize` pieces at
   * the head of the queue, each in directions 0..3, recording every newly
   * found open neighbour; stop as soon as the target is found.
   */
  method ExpandLevel(g: Grid, start: Piece, target: Piece, avoidEnemies: bool, depth: nat,
                     visited0: set<Piece>, parent0: map<Piece, ParentEntry>, queue0: seq<Piece>,
                     ghost dist0: map<Piece, nat>)
    returns (visited: set<Piece>, parent: map<Piece, ParentEntry>, queue: seq<Piece>, found: bool,
             ghost dist: map<Piece, nat>)
    requires g.Valid() && ParentsOk(g, start, visited0, parent0, dist0, avoidEnemies) && target !in visited0
    requires LevelReady(g, start, target, avoidEnemies, queue0, visited0, dist0, depth)
    ensures ParentsOk(g, start, visited, parent, dist, avoidEnemies)
    ensures found ==> target in visited && dist[target] == depth + 1
    ensures !found ==> target !in visited && LevelReady(g, start, target, avoidEnemies, queue, visited, dist, depth + 1)
  {
    visited, parent, queue, found, dist := visited0, parent0, queue0, false, dist0;
    var levelSize := |queue|;
    ghost var done: set<Piece> := {};
    for i := 0 to levelSize
      invariant ParentsOk(g, start, visited, parent, dist, avoidEnemies) && target !in visited
      invariant done <= visited
      invariant Layered(g, start, avoidEnemies, queue, visited, dist, depth, levelSize - i, done)
      invariant Closed(g, target, avoidEnemies, visited, dist, depth, done)
    {
      FrontierDequeue(g, start, avoidEnemies, queue, visited, dist, depth, levelSize - i);
      LayeredDequeue(g, start, avoidEnemies, queue, visited, dist, depth, levelSize - i, done);
      var current := queue[0];
      queue := queue[1..];
      visited, parent, queue, found, dist :=
        ExpandPiece(g, start, target, avoidEnemies, depth, levelSize - i - 1, current, visited, parent, queue, dist, done);
      if found {
        return;
      }
      done := done + {current};
    }
    LevelDone(g, start, target, avoidEnemies, queue, visited, dist, depth, done);
  }

  /**
   * The inner loop of a round: look at the neighbours of `current` in
   * directions 0..3 and record every newly found open one; stop as soon as
   * the target is found.
   */
  method ExpandPiece(g: Grid, start: Piece, target: Piece, avoidEnemies: bool, depth: nat, remaining: nat,
                     current: Piece, visited0: set<Piece>, parent0: map<Piece, ParentEntry>, queue0: seq<Piece>,
                     ghost dist0: map<Piece, nat>, ghost done: set<Piece>)
    returns (visited: set<Piece>, parent: map<Piece, ParentEntry>, queue: seq<Piece>, found: bool,
             ghost dist: map<Piece, nat>)
    requires g.Valid() && ParentsOk(g, start, visited0, parent0, dist0, avoidEnemies) && target !in visited0
    requires current in visited0 && current in dist0 && g.Has(current) && dist0[current] == depth
    requires current == start || !avoidEnemies || !LiveEnemy(g, current)
    requires done <= visited0
    requires Layered(g, start, avoidEnemies, queue0, visited0, dist0, depth, remaining, done + {current})
    requires Closed(g, target, avoidEnemies, visited0, dist0, depth, done)
    ensures ParentsOk(g, start, visited, parent, dist, avoidEnemies) && visited0 <= visited
    ensures found ==> target in visited && dist[target] == depth + 1
    ensures !found ==> target !in visited
    ensures !found ==> Layered(g, start, avoidEnemies, queue, visited, dist, depth, remaining, done + {current})
    ensures !found ==> Closed(g, target, avoidEnemies, visited, dist, depth, done + {current})
  {
    visited, parent, queue, found, dist := visited0, parent0, queue0, false, dist0;
    for dir := 0 to 4
      invariant visited0 <= visited
      invariant Expanding(g, start, target, avoidEnemies, depth, remaining, done, current,
                          visited, parent, queue, dist, dir)
    {
      var next := GetAdjacentPiece(g, Some(current), dir);
      if next.None? || next.value in visited {
        ExpandSkip(g, start, target, avoidEnemies, depth, remaining, done, current, visited, parent, queue, dist, dir);
        continue;
      }
      if IsDirectionBlocked(g, current, next, dir) {
        ExpandSkip(g, start, target, avoidEnemies, depth, remaining, done, current, visited, parent, queue, dist, dir);
        continue;
      }
      if avoidEnemies && next.value != target && LiveEnemy(g, next.value) {
        ExpandSkip(g, start, target, avoidEnemies, depth, remaining, done, current, visited, parent, queue, dist, dir);
        continue;
      }
      ExpandRecord(g, start, target, avoidEnemies, depth, remaining, done, current, visited, parent, queue, dist,
                   dir, next.value);
      visited := visited + {next.value};
      parent := parent[next.value := ParentEntry(current, dir)];
      dist := dist[next.value := depth + 1];
      queue := queue + [next.value];
      if next.value == target {
        found := true;
        return;
      }
    }
    ClosedAdd(g, target, avoidEnemies, visited, dist, depth, done, current);
  }

  /**
   * Breadth-first search from `start` for `target`, one level per round, for
   * at most `maxDepth` rounds; the search stops as soon as it discovers the
   * target. With `avoidEnemies`, pieces holding a live enemy other than the
   * target are not entered. A route is found exactly when one of at most
   * `maxDepth` moves exists, and it is a shortest one.
   */
  method LevelSearch(g: Grid, start: Piece, target: Piece, maxDepth: int, avoidEnemies: bool)
    returns (path: Option<seq<int>>)
    requires g.Valid() && g.Has(start) && g.Has(target) && start != target
    ensures path.Some? <==> ReachableWithin(g, start, target, maxDepth, avoidEnemies)
    ensures path.Some? ==> Shortest(g, start, path.value, target, avoidEnemies)
    ensures path.Some? ==> 1 <= |path.value| <= maxDepth
  {
    var visited: set<Piece> := {start};
    var parent: map<Piece, ParentEntry> := map[];
    ghost var dist: map<Piece, nat> := map[start := 0];
    var queue: seq<Piece> := [start];
    var found := false;
    var depth: nat := 0;
    NoRouteWithin(g, start, target, avoidEnemies, visited, parent, dist, depth);
    while |queue| > 0 && depth < maxDepth
      invariant ParentsOk(g, start, visited, parent, dist, avoidEnemies) && !found && target !in visited
      invariant LevelReady(g, start, target, avoidEnemies, queue, visited, dist, depth)
      invariant forall r | RouteFrom(g, start, r, target, avoidEnemies) :: |r| > depth
      decreases maxDepth - depth
    {
      visited, parent, queue, found, dist := ExpandLevel(g, start, target, avoidEnemies, depth, visited, parent, queue, dist);
      if found {
        break;
      }
      depth := depth + 1;
      NoRouteWithin(g, start, target, avoidEnemies, visited, parent, dist, depth);
    }
    if !found {
      if |queue| == 0 {
        assert forall p | p in visited :: dist[p] < depth;
        NoRouteAtAll(g, start, target, avoidEnemies, visited, parent, dist, depth);
      }
      return None;
    }
    var route := ReconstructPath(g, start, target, parent, visited, dist, avoidEnemies);
    return Some(route);
  }

  /**
   * FindPath: a shortest route from `start` to `target` that never passes
   * through a live enemy (the target itself may hold one), found exactly when
   * one of at most `maxDepth` moves exists; null for a null end, the empty
   * route when the ends coincide.
   */
  method FindPath(g: Grid, start: Option<Piece>, target: Option<Piece>, maxDepth: int)
    returns (path: Option<seq<int>>)
    requires g.Valid() && InRange(start, |g.cells|) && InRange(target, |g.cells|)
    ensures start.None? || target.None? ==> path.None?
    ensures start.Some? && start == target ==> path == Some([])
    ensures start.Some? && target.Some? && start != target ==>
              (path.Some? <==> ReachableWithin(g, start.value, target.value, maxDepth, true))
    ensures path.Some? ==> start.Some? && target.Some?
    ensures path.Some? ==> Shortest(g, start.value, path.value, target.value, true)
    ensures path.Some? ==> (path.value == [] <==> start == target)
    ensures path.Some? ==> |path.value| <= maxDepth || start == target
  {
    if start.None? || target.None? {
      return None;
    }
    if start == target {
      return Some([]);
    }
    path := LevelSearch(g, start.value, target.value, maxDepth, true);
  }

  // ---------------------------------------------------------------------------
  // Targets
  // ---------------------------------------------------------------------------

  /** Something worth walking to, with how far it is and how to get there. */
  datatype ReachableTarget = ReachableTarget(piece: Piece, typeKey: PoiKind, name: string, distance: int, path: seq<int>)

  /** A wall of the piece covers a level-transition door. */
  predicate HasDoor(c: Cell) {
    exists k | 0 <= k < |c.allWalls| :: c.allWalls[k].hasWarpCoverDoor
  }

  /**
   * When a piece counts as a target of the given kind: containers only when
   * unopened, active and interactive; traps and scenery never.
   */
  predicate IsTarget(c: Cell, kind: PoiKind) {
    match kind
    case PoiNpc => c.myMapNPC.Some?
    case PoiEnemy => EnemyAlive(c)
    case PoiContainer => ContainerPresent(c) && IsInteractableContainer(c.myCollectionContainer)
    case PoiShop => c.canShop
    case PoiFishing => c.canFish
    case PoiCards => c.canPlayCards
    case PoiDoor => HasDoor(c)
    case _ => false
  }

  function OneTarget(present: bool, p: Piece, kind: PoiKind, name: string, distance: int, path: seq<int>)
    : seq<ReachableTarget>
  {
    if present then [ReachableTarget(p, kind, name, distance, path)] else []
  }

  /**
   * The targets of piece `p`, each recorded with the given distance and path,
   * in the order NPC, enemy, container, shop, fishing, cards, door.
   */
  function PieceTargets(g: Grid, p: Piece, distance: int, path: seq<int>): seq<ReachableTarget>
    requires g.Has(p)
  {
    var c := g.cells[p];
    OneTarget(IsTarget(c, PoiNpc), p, PoiNpc, PoiName(c, PoiNpc), distance, path)
    + OneTarget(IsTarget(c, PoiEnemy), p, PoiEnemy, PoiName(c, PoiEnemy), distance, path)
    + OneTarget(IsTarget(c, PoiContainer), p, PoiContainer, PoiName(c, PoiContainer), distance, path)
    + OneTarget(IsTarget(c, PoiShop), p, PoiShop, "", distance, path)
    + OneTarget(IsTarget(c, PoiFishing), p, PoiFishing, "", distance, path)
    + OneTarget(IsTarget(c, PoiCards), p, PoiCards, "", distance, path)
    + OneTarget(IsTarget(c, PoiDoor), p, PoiDoor, "", distance, path)
  }

  /** `targets` followed by the targets of piece `p`. */
  function WithTargets(g: Grid, p: Piece, targets: seq<ReachableTarget>, distance: int, path: seq<int>)
    : seq<ReachableTarget>
    requires g.Has(p)
  {
    targets + PieceTargets(g, p, distance, path)
  }

  /** A target recorded for piece `p` at the given distance and path. */
  predicate TargetOf(g: Grid, p: Piece, t: ReachableTarget, distance: int, path: seq<int>)
    requires g.Has(p)
  {
    && t.piece == p && t.distance == distance && t.path == path
    && IsTarget(g.cells[p], t.typeKey) && t.name == PoiName(g.cells[p], t.typeKey)
  }

  /** Appending a piece's targets keeps the earlier list as a prefix and adds at most seven entries. */
  lemma WithTargetsPrefix(g: Grid, p: Piece, targets: seq<ReachableTarget>, distance: int, path: seq<int>)
    requires g.Has(p)
    ensures |targets| <= |WithTargets(g, p, targets, distance, path)| <= |targets| + 7
    ensures WithTargets(g, p, targets, distance, path)[..|targets|] == targets
  {
  }

  /** Every entry PieceTargets lists is a target of piece `p`. */
  lemma PieceTargetsSound(g: Grid, p: Piece, distance: int, path: seq<int>, t: ReachableTarget)
    requires g.Has(p) && t in PieceTargets(g, p, distance, path)
    ensures TargetOf(g, p, t, distance, path)
  {
    var c := g.cells[p];
    var o1 := OneTarget(IsTarget(c, PoiNpc), p, PoiNpc, PoiName(c, PoiNpc), distance, path);
    var o2 := OneTarget(IsTarget(c, PoiEnemy), p, PoiEnemy, PoiName(c, PoiEnemy), distance, path);
    var o3 := OneTarget(IsTarget(c, PoiContainer), p, PoiContainer, PoiName(c, PoiContainer), distance, path);
    var o4 := OneTarget(IsTarget(c, PoiShop), p, PoiShop, "", distance, path);
    var o5 := OneTarget(IsTarget(c, PoiFishing), p, PoiFishing, "", distance, path);
    var o6 := OneTarget(IsTarget(c, PoiCards), p, PoiCards, "", distance, path);
    var o7 := OneTarget(IsTarget(c, PoiDoor), p, PoiDoor, "", distance, path);
    assert t in o1 || t in o2 || t in o3 || t in o4 || t in o5 || t in o6 || t in o7 by {
      assert PieceTargets(g, p, distance, path) == o1 + o2 + o3 + o4 + o5 + o6 + o7;
    }
  }

  /** Every target of piece `p` is listed by PieceTargets. */
  lemma PieceTargetsComplete(g: Grid, p: Piece, distance: int, path: seq<int>, t: ReachableTarget)
    requires g.Has(p) && TargetOf(g, p, t, distance, path)
    ensures t in PieceTargets(g, p, distance, path)
  {
    var c := g.cells[p];
    var one := OneTarget(true, p, t.typeKey, t.name, distance, path);
    assert t == ReachableTarget(p, t.typeKey, t.name, distance, path);
    assert t in one;
    match t.typeKey
    case PoiNpc =>
      assert one == OneTarget(IsTarget(c, PoiNpc), p, PoiNpc, PoiName(c, PoiNpc), distance, path);
    case PoiEnemy =>
      assert one == OneTarget(IsTarget(c, PoiEnemy), p, PoiEnemy, PoiName(c, PoiEnemy), distance, path);
    case PoiContainer =>
      assert one == OneTarget(IsTarget(c, PoiContainer), p, PoiContainer, PoiName(c, PoiContainer), distance, path);
    case PoiShop =>
      assert one == OneTarget(IsTarget(c, PoiShop), p, PoiShop, "", distance, path);
    case PoiFishing =>
      assert one == OneTarget(IsTarget(c, PoiFishing), p, PoiFishing, "", distance, path);
    case PoiCards =>
      assert one == OneTarget(IsTarget(c, PoiCards), p, PoiCards, "", distance, path);
    case PoiDoor =>
      assert one == OneTarget(IsTarget(c, PoiDoor), p, PoiDoor, "", distance, path);
  }

  /** The entries appended are exactly the targets of piece `p`. */
  lemma WithTargetsMembers(g: Grid, p: Piece, targets: seq<ReachableTarget>, distance: int, path: seq<int>)
    requires g.Has(p)
    ensures forall t :: t in WithTargets(g, p, targets, distance, path) <==>
              t in targets || TargetOf(g, p, t, distance, path)
  {
    forall t | t in PieceTargets(g, p, distance, path)
      ensures TargetOf(g, p, t, distance, path)
    {
      PieceTargetsSound(g, p, distance, path, t);
    }
    forall t | TargetOf(g, p, t, distance, path)
      ensures t in PieceTargets(g, p, distance, path)
    {
      PieceTargetsComplete(g, p, distance, path, t);
    }
  }

  /** CollectTargets: append the targets of one piece, recorded with the given distance and path. */
  method CollectTargets(g: Grid, piece: Option<Piece>, distance: int, path: seq<int>, targets: seq<ReachableTarget>)
    returns (result: seq<ReachableTarget>)
    requires g.Valid() && InRange(piece, |g.cells|)
    ensures piece.None? ==> result == targets
    ensures piece.Some? ==> result == WithTargets(g, piece.value, targets, distance, path)
  {
    result := targets;
    if piece.None? {
      return;
    }
    var p := piece.value;
    var c := g.cells[p];
    // The piece's targets, kind by kind; `found` is what has been appended so far.
    ghost var o1 := OneTarget(IsTarget(c, PoiNpc), p, PoiNpc, PoiName(c, PoiNpc), distance, path);
    ghost var o2 := OneTarget(IsTarget(c, PoiEnemy), p, PoiEnemy, PoiName(c, PoiEnemy), distance, path);
    ghost var o3 := OneTarget(IsTarget(c, PoiContainer), p, PoiContainer, PoiName(c, PoiContainer), distance, path);
    ghost var o4 := OneTarget(IsTarget(c, PoiShop), p, PoiShop, "", distance, path);
    ghost var o5 := OneTarget(IsTarget(c, PoiFishing), p, PoiFishing, "", distance, path);
    ghost var o6 := OneTarget(IsTarget(c, PoiCards), p, PoiCards, "", distance, path);
    ghost var o7 := OneTarget(IsTarget(c, PoiDoor), p, PoiDoor, "", distance, path);

    result := result + (if c.myMapNPC.Some?
                        then [ReachableTarget(p, PoiNpc, c.myMapNPC.value.npcName.GetOr(""), distance, path)] else []);
    assert result == targets + o1;
    ghost var found := o1;

    result := result + (if c.myMapEnemy.Some? && !c.myMapEnemy.value.isDead
                        then [ReachableTarget(p, PoiEnemy, c.myMapEnemy.value.enemyName.GetOr(""), distance, path)] else []);
    AppendStep(result, targets, found, o2);
    found := found + o2;

    result := result + (if c.myCollectionContainer.Some? && !c.myCollectionContainer.value.hasOpened
                           && c.myCollectionContainer.value.activeInHierarchy
                           && IsInteractableContainer(c.myCollectionContainer)
                        then [ReachableTarget(p, PoiContainer, c.myCollectionContainer.value.containerBaseName.GetOr(""),
                                              distance, path)]
                        else []);
    AppendStep(result, targets, found, o3);
    found := found + o3;

    result := result + (if c.canShop
                        then [ReachableTarget(p, PoiShop, "", distance, path)] else []);
    AppendStep(result, targets, found, o4);
    found := found + o4;

    result := result + (if c.canFish
                        then [ReachableTarget(p, PoiFishing, "", distance, path)] else []);
    AppendStep(result, targets, found, o5);
    found := found + o5;

    result := result + (if c.canPlayCards
                        then [ReachableTarget(p, PoiCards, "", distance, path)] else []);
    AppendStep(result, targets, found, o6);
    found := found + o6;

    ghost var before := result;
    for k := 0 to |c.allWalls|
      invariant result == before
      invariant forall j | 0 <= j < k :: !c.allWalls[j].hasWarpCoverDoor
    {
      if c.allWalls[k].hasWarpCoverDoor {
        result := result + [ReachableTarget(p, PoiDoor, "", distance, path)];
        break;
      }
    }
    AppendStep(result, targets, found, o7);
    assert found + o7 == PieceTargets(g, p, distance, path);
  }

  /** One step of CollectTargets: appending `one` to `targets + found` extends `found`. */
  lemma AppendStep(result: seq<ReachableTarget>, targets: seq<ReachableTarget>, found: seq<ReachableTarget>,
                   one: seq<ReachableTarget>)
    requires result == targets + found + one
    ensures result == targets + (found + one)
  {
  }

  // ---------------------------------------------------------------------------
  // Exhaustive search (FindAllReachable)
  // ---------------------------------------------------------------------------

  /**
   * A target the exhaustive search may report: its route leads from `start`
   * to its piece without passing through a live enemy, its distance is the
   * route's length and within the depth cap (or 0, for the start piece), and
   * it is one of that piece's targets.
   */
  ghost predicate ValidTarget(g: Grid, start: Piece, maxDepth: int, t: ReachableTarget)
    requires g.Valid() && g.Has(start)
  {
    && g.Has(t.piece) && RouteFrom(g, start, t.path, t.piece, true)
    && t.distance == |t.path| && (t.distance == 0 || t.distance <= maxDepth)
    && TargetOf(g, t.piece, t, t.distance, t.path)
  }

  ghost predicate ValidTargets(g: Grid, start: Piece, maxDepth: int, targets: seq<ReachableTarget>)
    requires g.Valid() && g.Has(start)
  {
    forall t | t in targets :: ValidTarget(g, start, maxDepth, t)
  }

  /** Every valid target lies in the level. */
  lemma ValidTargetsInLevel(g: Grid, start: Piece, maxDepth: int, targets: seq<ReachableTarget>)
    requires g.Valid() && g.Has(start) && ValidTargets(g, start, maxDepth, targets)
    ensures forall t | t in targets :: g.Has(t.piece)
  {
  }

  /** Appending the targets of a piece reached by a valid route keeps every target valid. */
  lemma ValidTargetsGrow(g: Grid, start: Piece, maxDepth: int, targets: seq<ReachableTarget>,
                         p: Piece, distance: int, path: seq<int>)
    requires g.Valid() && g.Has(start) && g.Has(p) && ValidTargets(g, start, maxDepth, targets)
    requires RouteFrom(g, start, path, p, true) && distance == |path| && (distance == 0 || distance <= maxDepth)
    ensures ValidTargets(g, start, maxDepth, WithTargets(g, p, targets, distance, path))
    ensures forall t | t in targets :: t in WithTargets(g, p, targets, distance, path)
  {
    WithTargetsMembers(g, p, targets, distance, path);
    forall t | t in WithTargets(g, p, targets, distance, path)
      ensures ValidTarget(g, start, maxDepth, t)
    {
      if t !in targets {
        assert TargetOf(g, p, t, distance, path);
      }
    }
  }

  /** The pieces numbered below `n`. */
  function PiecesBelow(n: nat): (ps: set<Piece>)
    ensures forall p: Piece :: p in ps <==> p < n
  {
    if n == 0 then {} else PiecesBelow(n - 1) + {n - 1}
  }

  /** Some target of kind `kind` is listed for piece `p`. */
  ghost predicate HasTarget(targets: seq<ReachableTarget>, p: Piece, kind: PoiKind) {
    exists t | t in targets :: t.piece == p && t.typeKey == kind
  }

  /** Two targets name the same piece and kind. */
  predicate SameEntry(t: ReachableTarget, u: ReachableTarget) {
    t.piece == u.piece && t.typeKey == u.typeKey
  }

  /** No piece is listed twice with the same kind. */
  ghost predicate NoRepeats(ts: seq<ReachableTarget>) {
    forall i, j | 0 <= i < j < |ts| :: !SameEntry(ts[i], ts[j])
  }

  /** A list headed by `x` has no repeats exactly when its rest has none and none of the rest repeats `x`. */
  lemma NoRepeatsCons(x: ReachableTarget, rest: seq<ReachableTarget>)
    ensures NoRepeats([x] + rest) <==> NoRepeats(rest) && forall u | u in rest :: !SameEntry(x, u)
  {
    var s := [x] + rest;
    if NoRepeats(rest) && forall u | u in rest :: !SameEntry(x, u) {
      forall i, j | 0 <= i < j < |s|
        ensures !SameEntry(s[i], s[j])
      {
        assert s[j] == rest[j - 1];
        if i > 0 {
          assert s[i] == rest[i - 1];
        }
      }
    }
    if NoRepeats(s) {
      forall i, j | 0 <= i < j < |rest|
        ensures !SameEntry(rest[i], rest[j])
      {
        assert rest[i] == s[i + 1] && rest[j] == s[j + 1];
      }
      forall u | u in rest
        ensures !SameEntry(x, u)
      {
        var k :| 0 <= k < |rest| && rest[k] == u;
        assert s[0] == x && s[k + 1] == u;
      }
    }
  }

  /** Joining two lists without repeats that share no entry gives a list without repeats. */
  lemma NoRepeatsAppend(a: seq<ReachableTarget>, b: seq<ReachableTarget>)
    requires NoRepeats(a) && NoRepeats(b)
    requires forall t, u | t in a && u in b :: !SameEntry(t, u)
    ensures NoRepeats(a + b)
  {
    var ab := a + b;
    forall i, j | 0 <= i < j < |ab|
      ensures !SameEntry(ab[i], ab[j])
    {
      if j < |a| {
        assert ab[i] == a[i] && ab[j] == a[j];
      } else if i >= |a| {
        assert ab[i] == b[i - |a|] && ab[j] == b[j - |a|];
      } else {
        assert ab[i] in a && ab[j] in b;
      }
    }
  }

  /** Appending one target of a new kind to targets of the same piece keeps them without repeats. */
  lemma AppendOneTarget(a: seq<ReachableTarget>, kinds: set<PoiKind>, present: bool, p: Piece, kind: PoiKind,
                        name: string, distance: int, path: seq<int>)
    requires NoRepeats(a) && kind !in kinds
    requires forall t | t in a :: t.piece == p && t.typeKey in kinds
    ensures NoRepeats(a + OneTarget(present, p, kind, name, distance, path))
    ensures forall t | t in a + OneTarget(present, p, kind, name, distance, path) ::
              t.piece == p && t.typeKey in kinds + {kind}
  {
    NoRepeatsAppend(a, OneTarget(present, p, kind, name, distance, path));
  }

  /** The targets of one piece all name it, each kind at most once. */
  lemma PieceTargetsNoRepeats(g: Grid, p: Piece, distance: int, path: seq<int>)
    requires g.Has(p)
    ensures NoRepeats(PieceTargets(g, p, distance, path))
    ensures forall t | t in PieceTargets(g, p, distance, path) :: t.piece == p
  {
    var c := g.cells[p];
    var o1 := OneTarget(IsTarget(c, PoiNpc), p, PoiNpc, PoiName(c, PoiNpc), distance, path);
    var o2 := o1 + OneTarget(IsTarget(c, PoiEnemy), p, PoiEnemy, PoiName(c, PoiEnemy), distance, path);
    var o3 := o2 + OneTarget(IsTarget(c, PoiContainer), p, PoiContainer, PoiName(c, PoiContainer), distance, path);
    var o4 := o3 + OneTarget(IsTarget(c, PoiShop), p, PoiShop, "", distance, path);
    var o5 := o4 + OneTarget(IsTarget(c, PoiFishing), p, PoiFishing, "", distance, path);
    var o6 := o5 + OneTarget(IsTarget(c, PoiCards), p, PoiCards, "", distance, path);
    AppendOneTarget([], {}, IsTarget(c, PoiNpc), p, PoiNpc, PoiName(c, PoiNpc), distance, path);
    assert [] + o1 == o1;
    AppendOneTarget(o1, {PoiNpc}, IsTarget(c, PoiEnemy), p, PoiEnemy, PoiName(c, PoiEnemy), distance, path);
    AppendOneTarget(o2, {PoiNpc, PoiEnemy}, IsTarget(c, PoiContainer), p, PoiContainer, PoiName(c, PoiContainer),
                    distance, path);
    AppendOneTarget(o3, {PoiNpc, PoiEnemy, PoiContainer}, IsTarget(c, PoiShop), p, PoiShop, "", distance, path);
    AppendOneTarget(o4, {PoiNpc, PoiEnemy, PoiContainer, PoiShop}, IsTarget(c, PoiFishing), p, PoiFishing, "",
                    distance, path);
    AppendOneTarget(o5, {PoiNpc, PoiEnemy, PoiContainer, PoiShop, PoiFishing}, IsTarget(c, PoiCards), p, PoiCards,
                    "", distance, path);
    AppendOneTarget(o6, {PoiNpc, PoiEnemy, PoiContainer, PoiShop, PoiFishing, PoiCards}, IsTarget(c, PoiDoor), p,
                    PoiDoor, "", distance, path);
  }

  /** Appending the targets of a piece not listed yet keeps the list without repeats. */
  lemma NoRepeatsGrow(g: Grid, targets: seq<ReachableTarget>, next: Piece, distance: int, path: seq<int>)
    requires g.Has(next) && NoRepeats(targets) && forall t | t in targets :: t.piece != next
    ensures NoRepeats(WithTargets(g, next, targets, distance, path))
  {
    PieceTargetsNoRepeats(g, next, distance, path);
    NoRepeatsAppend(targets, PieceTargets(g, next, distance, path));
  }

  /** Every target of every recorded piece is listed. */
  ghost predicate Reported(g: Grid, dist: map<Piece, nat>, targets: seq<ReachableTarget>) {
    forall p, kind | p in dist && g.Has(p) && IsTarget(g.cells[p], kind) :: HasTarget(targets, p, kind)
  }

  /** Recording a piece and appending its targets keeps every recorded piece's targets listed. */
  lemma ReportedAdd(g: Grid, dist: map<Piece, nat>, targets: seq<ReachableTarget>, next: Piece, d: nat, path: seq<int>)
    requires g.Has(next) && Reported(g, dist, targets)
    ensures Reported(g, dist[next := d], WithTargets(g, next, targets, d, path))
  {
    var targets' := WithTargets(g, next, targets, d, path);
    WithTargetsMembers(g, next, targets, d, path);
    forall p, kind | p in dist[next := d] && g.Has(p) && IsTarget(g.cells[p], kind)
      ensures HasTarget(targets', p, kind)
    {
      if p == next {
        var t := ReachableTarget(next, kind, PoiName(g.cells[next], kind), d, path);
        assert TargetOf(g, next, t, d, path);
        assert t in targets';
      } else {
        assert HasTarget(targets, p, kind);
        var t :| t in targets && t.piece == p && t.typeKey == kind;
        assert t in targets';
      }
    }
  }

  /**
   * The exhaustive search has dealt with visited piece `p`: it is still
   * queued, it has been expanded, it holds a live enemy (recorded but never
   * expanded) or it lies at the depth cap.
   */
  ghost predicate Settled(g: Grid, start: Piece, maxDepth: int, queue: seq<Piece>, visited: set<Piece>,
                          dist: map<Piece, nat>, p: Piece)
    requires g.Valid() && g.Has(p)
  {
    || p in queue || Expanded(g, start, false, visited, dist, p)
    || (p != start && LiveEnemy(g, p)) || (p in dist && dist[p] >= maxDepth)
  }

  /**
   * The exhaustive search's invariant: the queue holds the current level and
   * then the next; no visited piece lies further; every visited piece except
   * those `pending` is settled; each listed target carries its piece's
   * distance, and every target of a visited piece is listed.
   */
  ghost predicate Explored(g: Grid, start: Piece, maxDepth: int, queue: seq<Piece>, visited: set<Piece>,
                           dist: map<Piece, nat>, targets: seq<ReachableTarget>, level: nat, near: nat,
                           pending: set<Piece>)
    requires g.Valid()
  {
    && Frontier(g, start, true, queue, visited, dist, level, near)
    && (forall p | p in visited :: p in dist && g.Has(p) && dist[p] <= level + 1)
    && (forall p | p in visited && p !in pending && g.Has(p) :: Settled(g, start, maxDepth, queue, visited, dist, p))
    && (forall t | t in targets :: t.piece in dist && t.distance == dist[t.piece])
    && Reported(g, dist, targets)
  }

  lemma ExploredStart(g: Grid, s: Piece, maxDepth: int, targets: seq<ReachableTarget>)
    requires g.Valid() && g.Has(s) && targets == WithTargets(g, s, [], 0, [])
    ensures Explored(g, s, maxDepth, [s], {s}, map[s := 0], targets, 0, 1, {})
  {
    var none: map<Piece, nat> := map[];
    WithTargetsMembers(g, s, [], 0, []);
    ReportedAdd(g, none, [], s, 0, []);
    assert none[s := 0] == map[s := 0];
  }

  lemma ExploredNextLevel(g: Grid, start: Piece, maxDepth: int, queue: seq<Piece>, visited: set<Piece>,
                          dist: map<Piece, nat>, targets: seq<ReachableTarget>, level: nat)
    requires g.Valid() && Explored(g, start, maxDepth, queue, visited, dist, targets, level, 0, {})
    ensures Explored(g, start, maxDepth, queue, visited, dist, targets, level + 1, |queue|, {})
  {
    FrontierNextLevel(g, start, true, queue, visited, dist, level);
  }

  /** Taking the head off the queue leaves it pending. */
  lemma ExploredDequeue(g: Grid, start: Piece, maxDepth: int, queue: seq<Piece>, visited: set<Piece>,
                        dist: map<Piece, nat>, targets: seq<ReachableTarget>, level: nat, near: nat)
    requires g.Valid() && Explored(g, start, maxDepth, queue, visited, dist, targets, level, near, {}) && near >= 1
    ensures queue[0] in visited && queue[0] in dist && g.Has(queue[0]) && dist[queue[0]] == level
    ensures queue[0] == start || !LiveEnemy(g, queue[0])
    ensures Explored(g, start, maxDepth, queue[1..], visited, dist, targets, level, near - 1, {queue[0]})
  {
    FrontierDequeue(g, start, true, queue, visited, dist, level, near);
    forall p | p in visited && p !in {queue[0]} && g.Has(p)
      ensures Settled(g, start, maxDepth, queue[1..], visited, dist, p)
    {
      assert Settled(g, start, maxDepth, queue, visited, dist, p);
      if p in queue {
        var k :| 0 <= k < |queue| && queue[k] == p;
        assert queue[1..][k - 1] == p;
      }
    }
  }

  /** A pending piece that is settled is no longer pending. */
  lemma ExploredSettle(g: Grid, start: Piece, maxDepth: int, queue: seq<Piece>, visited: set<Piece>,
                       dist: map<Piece, nat>, targets: seq<ReachableTarget>, level: nat, near: nat, current: Piece)
    requires g.Valid() && Explored(g, start, maxDepth, queue, visited, dist, targets, level, near, {current})
    requires g.Has(current) && Settled(g, start, maxDepth, queue, visited, dist, current)
    ensures Explored(g, start, maxDepth, queue, visited, dist, targets, level, near, {})
  {
  }

  /** Recording a piece without queueing it keeps the queue's shape. */
  lemma FrontierKeep(g: Grid, start: Piece, avoidEnemies: bool, queue: seq<Piece>, visited: set<Piece>,
                     dist: map<Piece, nat>, level: nat, near: nat, next: Piece, d: nat)
    requires g.Valid() && Frontier(g, start, avoidEnemies, queue, visited, dist, level, near) && next !in visited
    ensures Frontier(g, start, avoidEnemies, queue, visited + {next}, dist[next := d], level, near)
  {
    assert forall k | 0 <= k < |queue| :: queue[k] != next;
  }

  /**
   * Recording the open neighbour `next` of `current` (in direction `dir`)
   * one level deeper, appending its targets, and queueing it unless it holds
   * a live enemy keeps the exhaustive search's invariant and extends the
   * expansion of `current` past `dir`.
   */
  lemma ExploredAdd(g: Grid, start: Piece, maxDepth: int, queue: seq<Piece>, visited: set<Piece>,
                    dist: map<Piece, nat>, targets: seq<ReachableTarget>, level: nat, near: nat,
                    current: Piece, dir: int, next: Piece, path: seq<int>)
    requires g.Valid() && start in visited && visited == dist.Keys
    requires Explored(g, start, maxDepth, queue, visited, dist, targets, level, near, {current})
    requires current in visited && g.Has(current) && dist[current] == level
    requires ExpandedBelow(g, start, false, visited, dist, current, dir)
    requires next !in visited && g.Has(next) && GetAdjacentPiece(g, Some(current), dir) == Some(next)
    ensures Explored(g, start, maxDepth, if LiveEnemy(g, next) then queue else queue + [next], visited + {next},
                     dist[next := level + 1], WithTargets(g, next, targets, level + 1, path), level, near, {current})
    ensures ExpandedBelow(g, start, false, visited + {next}, dist[next := level + 1], current, dir + 1)
  {
    var queue' := if LiveEnemy(g, next) then queue else queue + [next];
    if LiveEnemy(g, next) {
      FrontierKeep(g, start, true, queue, visited, dist, level, near, next, level + 1);
    } else {
      FrontierEnqueue(g, start, true, queue, visited, dist, level, near, next, level + 1);
    }
    SettledAdd(g, start, maxDepth, queue, visited, dist, targets, level, near, current, next, queue');
    TargetsAdd(g, dist, targets, next, level + 1, path);
    ExpandedGrow(g, start, false, visited, dist, current, dir, next, level + 1);
    assert StepRecorded(g, start, false, visited + {next}, dist[next := level + 1], current, dir);
  }

  /** Recording `next`, and queueing it unless it holds a live enemy, keeps every settled piece settled. */
  lemma SettledAdd(g: Grid, start: Piece, maxDepth: int, queue: seq<Piece>, visited: set<Piece>,
                   dist: map<Piece, nat>, targets: seq<ReachableTarget>, level: nat, near: nat,
                   current: Piece, next: Piece, queue': seq<Piece>)
    requires g.Valid() && start in visited && visited == dist.Keys
    requires Explored(g, start, maxDepth, queue, visited, dist, targets, level, near, {current})
    requires next !in visited && g.Has(next)
    requires queue' == if LiveEnemy(g, next) then queue else queue + [next]
    ensures forall p | p in visited + {next} && p !in {current} && g.Has(p) ::
              Settled(g, start, maxDepth, queue', visited + {next}, dist[next := level + 1], p)
  {
    var visited', dist' := visited + {next}, dist[next := level + 1];
    forall p | p in visited' && p !in {current} && g.Has(p)
      ensures Settled(g, start, maxDepth, queue', visited', dist', p)
    {
      if p != next {
        assert Settled(g, start, maxDepth, queue, visited, dist, p);
        if Expanded(g, start, false, visited, dist, p) {
          ExpandedGrow(g, start, false, visited, dist, p, 4, next, level + 1);
        }
        if p in queue {
          assert p in queue';
        }
      } else if !LiveEnemy(g, next) {
        assert queue'[|queue|] == next;
      }
    }
  }

  /** Appending the targets of `next`, recorded at distance `d`, keeps every target's distance and the listing complete. */
  lemma TargetsAdd(g: Grid, dist: map<Piece, nat>, targets: seq<ReachableTarget>, next: Piece, d: nat, path: seq<int>)
    requires g.Has(next) && next !in dist && Reported(g, dist, targets)
    requires forall t | t in targets :: t.piece in dist && t.distance == dist[t.piece]
    ensures forall t | t in WithTargets(g, next, targets, d, path) ::
              t.piece in dist[next := d] && t.distance == dist[next := d][t.piece]
    ensures Reported(g, dist[next := d], WithTargets(g, next, targets, d, path))
  {
    WithTargetsMembers(g, next, targets, d, path);
    forall t | t in WithTargets(g, next, targets, d, path)
      ensures t.piece in dist[next := d] && t.distance == dist[next := d][t.piece]
    {
      if t !in targets {
        assert TargetOf(g, next, t, d, path);
      }
    }
    ReportedAdd(g, dist, targets, next, d, path);
  }

  /** Recording a newly found open neighbour, with its targets appended, moves the expansion of `current` past `dir`. */
  lemma VisitRecord(g: Grid, start: Piece, maxDepth: int, level: nat, near: nat, current: Piece,
                    visited: set<Piece>, parent: map<Piece, ParentEntry>, depthMap: map<Piece, nat>,
                    queue: seq<Piece>, targets: seq<ReachableTarget>, dir: int, next: Piece, path: seq<int>,
                    targets': seq<ReachableTarget>)
    requires g.Valid() && g.Has(start)
    requires Visiting(g, start, maxDepth, level, near, current, visited, parent, depthMap, queue, targets, dir)
    requires next !in visited && g.Has(next) && GetAdjacentPiece(g, Some(current), dir) == Some(next)
    requires ParentsOk(g, start, visited + {next}, parent[next := ParentEntry(current, dir)],
                       depthMap[next := level + 1], true)
    requires targets' == WithTargets(g, next, targets, level + 1, path) && ValidTargets(g, start, maxDepth, targets')
    ensures Visiting(g, start, maxDepth, level, near, current, visited + {next}, parent[next := ParentEntry(current, dir)],
                     depthMap[next := level + 1], if LiveEnemy(g, next) then queue else queue + [next], targets', dir + 1)
  {
    ExploredAdd(g, start, maxDepth, queue, visited, depthMap, targets, level, near, current, dir, next, path);
    NoRepeatsGrow(g, targets, next, level + 1, path);
  }

  /**
   * Completeness of the exhaustive search: once the queue is used up, the
   * end of every enemy-avoiding route from a visited, expandable piece that
   * stays within the depth cap is visited, no further than the route is long.
   */
  lemma {:induction false} ReachAll(g: Grid, s: Piece, maxDepth: int, visited: set<Piece>,
                                    parent: map<Piece, ParentEntry>, dist: map<Piece, nat>,
                                    p: Piece, r: seq<int>, q: Piece)
    requires g.Valid() && g.Has(s) && ParentsOk(g, s, visited, parent, dist, true)
    requires forall x | x in visited && g.Has(x) :: Settled(g, s, maxDepth, [], visited, dist, x)
    requires p in visited && (p == s || !LiveEnemy(g, p)) && RouteFrom(g, p, r, q, true)
    requires dist[p] + |r| <= maxDepth
    ensures q in visited && dist[q] <= dist[p] + |r|
    decreases |r|
  {
    if r != [] {
      var next := GetAdjacentPiece(g, Some(p), r[0]).value;
      assert Settled(g, s, maxDepth, [], visited, dist, p);
      assert StepRecorded(g, s, false, visited, dist, p, r[0]);
      if |r| == 1 {
        assert r[1..] == [];
      } else {
        ReachAll(g, s, maxDepth, visited, parent, dist, next, r[1..], q);
      }
    }
  }

  /**
   * When the queue is used up, every listed target's route is a shortest
   * one, and every target of a piece reachable within the cap is listed.
   */
  lemma SearchComplete(g: Grid, s: Piece, maxDepth: int, visited: set<Piece>, parent: map<Piece, ParentEntry>,
                       dist: map<Piece, nat>, targets: seq<ReachableTarget>, level: nat, near: nat)
    requires g.Valid() && g.Has(s) && ParentsOk(g, s, visited, parent, dist, true)
    requires Explored(g, s, maxDepth, [], visited, dist, targets, level, near, {})
    requires ValidTargets(g, s, maxDepth, targets)
    ensures forall t | t in targets :: Shortest(g, s, t.path, t.piece, true)
    ensures forall q: Piece, kind | g.Has(q) && IsTarget(g.cells[q], kind) && ReachableWithin(g, s, q, maxDepth, true) ::
              HasTarget(targets, q, kind)
  {
    forall t | t in targets
      ensures Shortest(g, s, t.path, t.piece, true)
    {
      assert ValidTarget(g, s, maxDepth, t);
      forall r | RouteFrom(g, s, r, t.piece, true)
        ensures |t.path| <= |r|
      {
        if |r| <= maxDepth {
          ReachAll(g, s, maxDepth, visited, parent, dist, s, r, t.piece);
        }
      }
    }
    forall q: Piece, kind | g.Has(q) && IsTarget(g.cells[q], kind) && ReachableWithin(g, s, q, maxDepth, true)
      ensures HasTarget(targets, q, kind)
    {
      var r :| RouteFrom(g, s, r, q, true) && |r| <= maxDepth;
      ReachAll(g, s, maxDepth, visited, parent, dist, s, r, q);
    }
  }

  /**
   * Collect the targets of a recorded piece, with the route the parent links
   * give; the route is as long as the piece's distance.
   */
  method CollectReached(g: Grid, start: Piece, maxDepth: int, p: Piece, parent: map<Piece, ParentEntry>,
                        ghost visited: set<Piece>, ghost depthMap: map<Piece, nat>, targets0: seq<ReachableTarget>)
    returns (targets: seq<ReachableTarget>, path: seq<int>)
    requires g.Valid() && g.Has(start) && ParentsOk(g, start, visited, parent, depthMap, true)
    requires p in visited && depthMap[p] <= maxDepth && ValidTargets(g, start, maxDepth, targets0)
    ensures RouteFrom(g, start, path, p, true) && |path| == depthMap[p]
    ensures targets == WithTargets(g, p, targets0, |path|, path)
    ensures ValidTargets(g, start, maxDepth, targets)
    ensures forall t | t in targets0 :: t in targets
  {
    path := ReconstructPath(g, start, p, parent, visited, depthMap, true);
    targets := CollectTargets(g, Some(p), |path|, path, targets0);
    ValidTargetsGrow(g, start, maxDepth, targets0, p, |path|, path);
  }

  /**
   * The state while `current` (at level `level`, below the cap) is expanded
   * by the exhaustive search, directions below `dir` done.
   */
  ghost predicate Visiting(g: Grid, start: Piece, maxDepth: int, level: nat, near: nat, current: Piece,
                           visited: set<Piece>, parent: map<Piece, ParentEntry>, depthMap: map<Piece, nat>,
                           queue: seq<Piece>, targets: seq<ReachableTarget>, dir: int)
    requires g.Valid() && g.Has(start)
  {
    && ParentsOk(g, start, visited, parent, depthMap, true)
    && Explored(g, start, maxDepth, queue, visited, depthMap, targets, level, near, {current})
    && current in visited && g.Has(current) && depthMap[current] == level && level < maxDepth
    && (current == start || !LiveEnemy(g, current))
    && ExpandedBelow(g, start, false, visited, depthMap, current, dir)
    && ValidTargets(g, start, maxDepth, targets) && NoRepeats(targets)
  }

  /** A neighbour that is missing, already visited or behind a blocked edge needs no recording. */
  lemma VisitSkip(g: Grid, start: Piece, maxDepth: int, level: nat, near: nat, current: Piece,
                  visited: set<Piece>, parent: map<Piece, ParentEntry>, depthMap: map<Piece, nat>,
                  queue: seq<Piece>, targets: seq<ReachableTarget>, dir: int)
    requires g.Valid() && g.Has(start)
    requires Visiting(g, start, maxDepth, level, near, current, visited, parent, depthMap, queue, targets, dir)
    requires var next := GetAdjacentPiece(g, Some(current), dir);
             next.None? || next.value in visited || IsDirectionBlocked(g, current, next, dir)
    ensures Visiting(g, start, maxDepth, level, near, current, visited, parent, depthMap, queue, targets, dir + 1)
  {
    var next := GetAdjacentPiece(g, Some(current), dir);
    if next.Some? && next.value in visited {
      assert next.value in depthMap && depthMap[next.value] <= level + 1;
    }
    ExpandedBelowNext(g, start, false, visited, depthMap, current, dir);
  }

  /**
   * A newly found open neighbour `next` of `current` (at `level`): record it
   * one level deeper, collect its targets with the route the parent links
   * give, and queue it unless it holds a live enemy.
   */
  method RecordNeighbour(g: Grid, start: Piece, maxDepth: int, current: Piece, dir: int, next: Piece, ghost level: nat,
                         visited0: set<Piece>, parent0: map<Piece, ParentEntry>, depthMap0: map<Piece, nat>,
                         queue0: seq<Piece>, targets0: seq<ReachableTarget>)
    returns (visited: set<Piece>, parent: map<Piece, ParentEntry>, depthMap: map<Piece, nat>,
             queue: seq<Piece>, targets: seq<ReachableTarget>, path: seq<int>)
    requires g.Valid() && g.Has(start) && ParentsOk(g, start, visited0, parent0, depthMap0, true)
    requires current in visited0 && depthMap0[current] == level && level < maxDepth
    requires current == start || !LiveEnemy(g, current)
    requires next !in visited0 && g.Has(next) && GetAdjacentPiece(g, Some(current), dir) == Some(next)
    requires !IsDirectionBlocked(g, current, Some(next), dir)
    requires ValidTargets(g, start, maxDepth, targets0)
    ensures visited == visited0 + {next} && parent == parent0[next := ParentEntry(current, dir)]
    ensures depthMap == depthMap0[next := level + 1]
    ensures ParentsOk(g, start, visited, parent, depthMap, true)
    ensures queue == if LiveEnemy(g, next) then queue0 else queue0 + [next]
    ensures RouteFrom(g, start, path, next, true) && |path| == level + 1
    ensures targets == WithTargets(g, next, targets0, level + 1, path)
    ensures ValidTargets(g, start, maxDepth, targets) && forall t | t in targets0 :: t in targets
  {
    var nextDepth := depthMap0[current] + 1;
    ParentsOkAdd(g, start, visited0, parent0, depthMap0, true, current, dir, next);
    visited := visited0 + {next};
    parent := parent0[next := ParentEntry(current, dir)];
    depthMap := depthMap0[next := nextDepth];
    assert next in visited && depthMap[next] == level + 1 <= maxDepth;
    targets, path := CollectReached(g, start, maxDepth, next, parent, visited, depthMap, targets0);
    queue := if LiveEnemy(g, next) then queue0 else queue0 + [next];
  }

  /**
   * One expansion of the exhaustive search: record every unvisited open
   * neighbour of `current`, collect its targets with the route to it, and
   * queue it unless it holds a live enemy.
   */
  method VisitNeighbours(g: Grid, start: Piece, maxDepth: int, current: Piece, ghost level: nat, ghost near: nat,
                         visited0: set<Piece>, parent0: map<Piece, ParentEntry>, depthMap0: map<Piece, nat>,
                         queue0: seq<Piece>, targets0: seq<ReachableTarget>)
    returns (visited: set<Piece>, parent: map<Piece, ParentEntry>, depthMap: map<Piece, nat>,
             queue: seq<Piece>, targets: seq<ReachableTarget>)
    requires g.Valid() && g.Has(start)
    requires Visiting(g, start, maxDepth, level, near, current, visited0, parent0, depthMap0, queue0, targets0, 0)
    ensures ParentsOk(g, start, visited, parent, depthMap, true)
    ensures Explored(g, start, maxDepth, queue, visited, depthMap, targets, level, near, {})
    ensures Expanded(g, start, false, visited, depthMap, current)
    ensures ValidTargets(g, start, maxDepth, targets) && NoRepeats(targets)
    ensures forall t | t in targets0 :: t in targets
    ensures visited0 <= visited && (visited == visited0 ==> queue == queue0)
  {
    visited, parent, depthMap, queue, targets := visited0, parent0, depthMap0, queue0, targets0;
    for dir := 0 to 4
      invariant Visiting(g, start, maxDepth, level, near, current, visited, parent, depthMap, queue, targets, dir)
      invariant forall t | t in targets0 :: t in targets
      invariant visited0 <= visited && (visited == visited0 ==> queue == queue0)
    {
      var next := GetAdjacentPiece(g, Some(current), dir);
      if next.None? || next.value in visited || IsDirectionBlocked(g, current, next, dir) {
        VisitSkip(g, start, maxDepth, level, near, current, visited, parent, depthMap, queue, targets, dir);
        continue;
      }
      var visited', parent', depthMap', queue', targets', path :=
        RecordNeighbour(g, start, maxDepth, current, dir, next.value, level,
                        visited, parent, depthMap, queue, targets);
      VisitRecord(g, start, maxDepth, level, near, current, visited, parent, depthMap, queue, targets, dir,
                  next.value, path, targets');
      visited, parent, depthMap, queue, targets := visited', parent', depthMap', queue', targets';
    }
    ExploredSettle(g, start, maxDepth, queue, visited, depthMap, targets, level, near, current);
  }

  /** The exhaustive search's loop invariant: the search invariant, its own invariant, valid targets and no repeats. */
  ghost predicate Searching(g: Grid, s: Piece, maxDepth: int, queue: seq<Piece>, visited: set<Piece>,
                            parent: map<Piece, ParentEntry>, depthMap: map<Piece, nat>,
                            targets: seq<ReachableTarget>, level: nat, near: nat)
    requires g.Valid() && g.Has(s)
  {
    && ParentsOk(g, s, visited, parent, depthMap, true)
    && Explored(g, s, maxDepth, queue, visited, depthMap, targets, level, near, {})
    && ValidTargets(g, s, maxDepth, targets) && NoRepeats(targets)
  }

  /**
   * One pass of the exhaustive search's loop: take the head of the queue
   * and, unless it lies at the depth cap, expand it. The ghost level moves
   * on when the current level is used up.
   */
  method SearchStep(g: Grid, start: Piece, maxDepth: int, ghost level0: nat, ghost near0: nat,
                    visited0: set<Piece>, parent0: map<Piece, ParentEntry>, depthMap0: map<Piece, nat>,
                    queue0: seq<Piece>, targets0: seq<ReachableTarget>)
    returns (visited: set<Piece>, parent: map<Piece, ParentEntry>, depthMap: map<Piece, nat>,
             queue: seq<Piece>, targets: seq<ReachableTarget>, ghost level: nat, ghost near: nat)
    requires g.Valid() && g.Has(start) && |queue0| > 0
    requires Searching(g, start, maxDepth, queue0, visited0, parent0, depthMap0, targets0, level0, near0)
    ensures Searching(g, start, maxDepth, queue, visited, parent, depthMap, targets, level, near)
    ensures forall t | t in targets0 :: t in targets
    ensures PiecesBelow(|g.cells|) - visited < PiecesBelow(|g.cells|) - visited0 ||
            (visited == visited0 && |queue| < |queue0|)
  {
    level, near := level0, near0;
    if near == 0 {
      ExploredNextLevel(g, start, maxDepth, queue0, visited0, depthMap0, targets0, level);
      level, near := level + 1, |queue0|;
    }
    ExploredDequeue(g, start, maxDepth, queue0, visited0, depthMap0, targets0, level, near);
    near := near - 1;
    visited, parent, depthMap, queue, targets :=
      ExpandFrom(g, start, maxDepth, queue0[0], level, near, visited0, parent0, depthMap0, queue0[1..], targets0);
  }

  /**
   * The body of the exhaustive search's loop once `current` is dequeued: a
   * piece at the depth cap is settled as it is, any other has its
   * neighbours visited.
   */
  method ExpandFrom(g: Grid, start: Piece, maxDepth: int, current: Piece, ghost level: nat, ghost near: nat,
                    visited0: set<Piece>, parent0: map<Piece, ParentEntry>, depthMap0: map<Piece, nat>,
                    queue0: seq<Piece>, targets0: seq<ReachableTarget>)
    returns (visited: set<Piece>, parent: map<Piece, ParentEntry>, depthMap: map<Piece, nat>,
             queue: seq<Piece>, targets: seq<ReachableTarget>)
    requires g.Valid() && g.Has(start)
    requires ParentsOk(g, start, visited0, parent0, depthMap0, true)
    requires Explored(g, start, maxDepth, queue0, visited0, depthMap0, targets0, level, near, {current})
    requires current in visited0 && g.Has(current) && depthMap0[current] == level
    requires current == start || !LiveEnemy(g, current)
    requires ValidTargets(g, start, maxDepth, targets0) && NoRepeats(targets0)
    ensures Searching(g, start, maxDepth, queue, visited, parent, depthMap, targets, level, near)
    ensures forall t | t in targets0 :: t in targets
    ensures PiecesBelow(|g.cells|) - visited < PiecesBelow(|g.cells|) - visited0 ||
            (visited == visited0 && queue == queue0)
  {
    visited, parent, depthMap, queue, targets := visited0, parent0, depthMap0, queue0, targets0;
    if depthMap[current] >= maxDepth {
      ExploredSettle(g, start, maxDepth, queue, visited, depthMap, targets, level, near, current);
      return;
    }
    visited, parent, depthMap, queue, targets :=
      VisitNeighbours(g, start, maxDepth, current, level, near, visited, parent, depthMap, queue, targets);
    if visited != visited0 {
      UnvisitedShrinks(g, start, visited0, visited, parent, depthMap);
    }
  }

  /** Recording new pieces shrinks the set of pieces not yet visited. */
  lemma UnvisitedShrinks(g: Grid, start: Piece, before: set<Piece>, after: set<Piece>,
                         parent: map<Piece, ParentEntry>, dist: map<Piece, nat>)
    requires g.Valid() && ParentsOk(g, start, after, parent, dist, true) && before < after
    ensures PiecesBelow(|g.cells|) - after < PiecesBelow(|g.cells|) - before
  {
    var x :| x in after && x !in before;
    assert x in PiecesBelow(|g.cells|) - before;
  }

  /** A permutation of the search's result keeps its targets valid, shortest and complete. */
  lemma ResultPermuted(g: Grid, start: Piece, maxDepth: int, a: seq<ReachableTarget>, b: seq<ReachableTarget>)
    requires g.Valid() && g.Has(start) && ValidTargets(g, start, maxDepth, a) && multiset(a) == multiset(b)
    requires forall t | t in a :: Shortest(g, start, t.path, t.piece, true)
    ensures ValidTargets(g, start, maxDepth, b)
    ensures forall t | t in b :: Shortest(g, start, t.path, t.piece, true)
    ensures forall t | t in a :: t in b
    ensures forall p, kind | HasTarget(a, p, kind) :: HasTarget(b, p, kind)
  {
    forall t | t in b
      ensures t in a
    {
      assert t in multiset(b);
    }
    forall t | t in a
      ensures t in b
    {
      assert t in multiset(a);
    }
    forall p, kind | HasTarget(a, p, kind)
      ensures HasTarget(b, p, kind)
    {
      var t :| t in a && t.piece == p && t.typeKey == kind;
      assert t in b;
    }
  }

  /**
   * The exhaustive search's main loop: take pieces off the queue until it is
   * used up, expanding each one below the depth cap.
   */
  method ExploreAll(g: Grid, s: Piece, maxDepth: int, visited0: set<Piece>, parent0: map<Piece, ParentEntry>,
                    depthMap0: map<Piece, nat>, queue0: seq<Piece>, targets0: seq<ReachableTarget>,
                    ghost level0: nat, ghost near0: nat)
    returns (visited: set<Piece>, parent: map<Piece, ParentEntry>, depthMap: map<Piece, nat>,
             targets: seq<ReachableTarget>, ghost level: nat, ghost near: nat)
    requires g.Valid() && g.Has(s)
    requires Searching(g, s, maxDepth, queue0, visited0, parent0, depthMap0, targets0, level0, near0)
    ensures Searching(g, s, maxDepth, [], visited, parent, depthMap, targets, level, near)
    ensures forall t | t in targets0 :: t in targets
  {
    visited, parent, depthMap, targets, level, near := visited0, parent0, depthMap0, targets0, level0, near0;
    var queue := queue0;
    while |queue| > 0
      invariant Searching(g, s, maxDepth, queue, visited, parent, depthMap, targets, level, near)
      invariant forall t | t in targets0 :: t in targets
      decreases PiecesBelow(|g.cells|) - visited, |queue|
    {
      visited, parent, depthMap, queue, targets, level, near :=
        SearchStep(g, s, maxDepth, level, near, visited, parent, depthMap, queue, targets);
    }
  }

  /**
   * FindAllReachable: breadth-first search over every piece reachable from
   * `start` without passing through a live enemy, at most `maxDepth` moves
   * away, collecting each piece's targets with a shortest route to it; the
   * start piece's own targets are found at distance 0. The result is ordered
   * by distance.
   */
  method FindAllReachable(g: Grid, start: Option<Piece>, maxDepth: int) returns (targets: seq<ReachableTarget>)
    requires g.Valid() && InRange(start, |g.cells|)
    ensures start.None? ==> targets == []
    ensures SortedByDistance(targets)
    ensures start.Some? ==> ValidTargets(g, start.value, maxDepth, targets)
    ensures start.Some? ==> forall t | TargetOf(g, start.value, t, 0, []) :: t in targets
    ensures start.Some? ==> forall t | t in targets :: Shortest(g, start.value, t.path, t.piece, true)
    ensures start.Some? ==> forall q: Piece, kind | g.Has(q) && IsTarget(g.cells[q], kind) &&
                                             ReachableWithin(g, start.value, q, maxDepth, true) ::
                              HasTarget(targets, q, kind)
    ensures NoRepeats(targets)
  {
    targets := [];
    if start.None? {
      return;
    }
    var s := start.value;
    var visited: set<Piece> := {s};
    var parent: map<Piece, ParentEntry> := map[];
    var depthMap: map<Piece, nat> := map[s := 0];
    var queue: seq<Piece> := [s];

    targets := CollectTargets(g, start, 0, [], targets);
    ValidTargetsGrow(g, s, maxDepth, [], s, 0, []);
    WithTargetsMembers(g, s, [], 0, []);
    NoRepeatsGrow(g, [], s, 0, []);
    ExploredStart(g, s, maxDepth, targets);
    ghost var level: nat, near: nat;
    visited, parent, depthMap, targets, level, near :=
      ExploreAll(g, s, maxDepth, visited, parent, depthMap, queue, targets, 0, 1);
    SearchComplete(g, s, maxDepth, visited, parent, depthMap, targets, level, near);
    ghost var found := targets;
    targets := SortByDistance(targets);
    SortByDistanceSpec(found);
    ResultPermuted(g, s, maxDepth, found, targets);
    SortNoRepeats(found);
  }

  // ---------------------------------------------------------------------------
  // Describing a route
  // ---------------------------------------------------------------------------

  /** What is spoken for a found route: "here" for an empty one, else its turns and runs. */
  function RouteDescription(path: seq<int>, playerLookDirection: int): seq<Msg> {
    if path == [] then [Plain(NavHere)] else PathMsgs(RouteSteps(path, playerLookDirection))
  }

  /**
   * BuildRouteDescription: "here" for a null or empty route; otherwise, for
   * each run of equal moves, a turn when the run is not straight ahead of the
   * current facing, then "go n ahead". The parts are what RouteSteps says,
   * in the pathfinding words.
   */
  method BuildRouteDescription(path: Option<seq<int>>, playerLookDirection: int) returns (parts: seq<Msg>)
    ensures path.None? || path.value == [] ==> parts == [Plain(NavHere)]
    ensures path.Some? && path.value != [] ==> parts == PathMsgs(RouteSteps(path.value, playerLookDirection))
    ensures path.Some? ==> parts == RouteDescription(path.value, playerLookDirection)
  {
    if path.None? || path.value == [] {
      return [Plain(NavHere)];
    }
    var p := path.value;
    parts := [];
    var currentFacing := playerLookDirection;
    var i := 0;
    ghost var done: seq<Step> := [];
    while i < |p|
      invariant 0 <= i <= |p|
      invariant done + RouteSteps(p[i..], currentFacing) == RouteSteps(p, playerLookDirection)
      invariant parts == PathMsgs(done)
      decreases |p| - i
    {
      var moveDir := p[i];
      var relDir := AbsoluteToRelative(moveDir, currentFacing);
      ghost var turn := TurnTo(moveDir, currentFacing);
      ghost var facing0 := currentFacing;
      var i0 := i;
      ghost var done0 := done;
      if relDir == 1 {
        PathMsgsSnoc(done, Turn(relDir));
        parts := parts + [Plain(PathTurnRight)];
        done := done + [Turn(relDir)];
        currentFacing := moveDir;
      } else if relDir == 3 {
        PathMsgsSnoc(done, Turn(relDir));
        parts := parts + [Plain(PathTurnLeft)];
        done := done + [Turn(relDir)];
        currentFacing := moveDir;
      } else if relDir == 2 {
        PathMsgsSnoc(done, Turn(relDir));
        parts := parts + [Plain(PathTurnAround)];
        done := done + [Turn(relDir)];
        currentFacing := moveDir;
      }
      assert done == done0 + turn;

      i := SkipRun(p, i);
      var count := i - i0;
      var go := Msg(PathGo, [Num(count), Sub(Plain(DirAhead))]);
      RouteProgress(p, playerLookDirection, done0, done, i0, i, facing0, moveDir, count);
      PathMsgsSnoc(done, Go(moveDir, count));
      parts := parts + [go];
      done := done + [Go(moveDir, count)];
      currentFacing := moveDir;
    }
    assert done == RouteSteps(p, playerLookDirection) by {
      assert p[i..] == [];
    }
  }

  /**
   * GetNextGPSInstruction: the word for one move from the current facing;
   * it is the turn the move's route would announce, or "ahead" when no turn
   * is needed.
   */
  function GetNextGPSInstruction(nextAbsoluteDir: int, playerLookDirection: int): (m: Msg)
    ensures RouteSteps([nextAbsoluteDir], playerLookDirection)[0].Turn? ==>
              m == PathMsg(RouteSteps([nextAbsoluteDir], playerLookDirection)[0])
    ensures RouteSteps([nextAbsoluteDir], playerLookDirection)[0].Go? ==> m == Plain(DirAhead)
  {
    SingleMoveSteps(nextAbsoluteDir, playerLookDirection);
    match AbsoluteToRelative(nextAbsoluteDir, playerLookDirection)
    case 0 => Plain(DirAhead)
    case 1 => Plain(PathTurnRight)
    case 2 => Plain(PathTurnAround)
    case 3 => Plain(PathTurnLeft)
    case _ => Plain(DirAhead)
  }

  // ---------------------------------------------------------------------------
  // Ordering by distance (the library sort the source calls)
  // ---------------------------------------------------------------------------

  predicate SortedByDistance(ts: seq<ReachableTarget>) {
    forall i, j | 0 <= i < j < |ts| :: ts[i].distance <= ts[j].distance
  }

  /** `t` placed before the first entry of `ts` that is not nearer. */
  function InsertByDistance(t: ReachableTarget, ts: seq<ReachableTarget>): seq<ReachableTarget>
    decreases |ts|
  {
    if ts == [] || t.distance <= ts[0].distance then [t] + ts
    else [ts[0]] + InsertByDistance(t, ts[1..])
  }

  /** Insertion keeps a list ordered by distance, and the new head is `t` or the old head. */
  lemma {:induction false} InsertSorted(t: ReachableTarget, ts: seq<ReachableTarget>)
    requires SortedByDistance(ts)
    ensures SortedByDistance(InsertByDistance(t, ts))
    ensures |InsertByDistance(t, ts)| == |ts| + 1
    ensures InsertByDistance(t, ts)[0] == t || (ts != [] && InsertByDistance(t, ts)[0] == ts[0])
    decreases |ts|
  {
    if ts != [] && t.distance > ts[0].distance {
      var rest := InsertByDistance(t, ts[1..]);
      InsertSorted(t, ts[1..]);
      assert ts[0].distance <= rest[0].distance;
    }
  }

  /** Insertion adds `t` and loses nothing. */
  lemma {:induction false} InsertPermutes(t: ReachableTarget, ts: seq<ReachableTarget>)
    ensures multiset(InsertByDistance(t, ts)) == multiset(ts) + multiset{t}
    decreases |ts|
  {
    if ts != [] && t.distance > ts[0].distance {
      InsertPermutes(t, ts[1..]);
      assert ts == [ts[0]] + ts[1..];
    }
  }

  /** Insertion sort by distance (the library sort the source calls). */
  function SortByDistance(ts: seq<ReachableTarget>): seq<ReachableTarget>
    decreases |ts|
  {
    if ts == [] then [] else InsertByDistance(ts[0], SortByDistance(ts[1..]))
  }

  /** The sort yields a permutation of its input ordered by distance. */
  lemma {:induction false} SortByDistanceSpec(ts: seq<ReachableTarget>)
    ensures SortedByDistance(SortByDistance(ts))
    ensures multiset(SortByDistance(ts)) == multiset(ts)
    decreases |ts|
  {
    if ts != [] {
      SortByDistanceSpec(ts[1..]);
      InsertSorted(ts[0], SortByDistance(ts[1..]));
      InsertPermutes(ts[0], SortByDistance(ts[1..]));
      assert ts == [ts[0]] + ts[1..];
    }
  }

  /** Inserting an entry that repeats none of a list without repeats leaves it without repeats. */
  lemma {:induction false} InsertNoRepeats(t: ReachableTarget, ts: seq<ReachableTarget>)
    requires NoRepeats(ts) && forall u | u in ts :: !SameEntry(t, u)
    ensures NoRepeats(InsertByDistance(t, ts))
    decreases |ts|
  {
    if ts == [] || t.distance <= ts[0].distance {
      NoRepeatsCons(t, ts);
    } else {
      assert ts == [ts[0]] + ts[1..];
      NoRepeatsCons(ts[0], ts[1..]);
      InsertNoRepeats(t, ts[1..]);
      InsertPermutes(t, ts[1..]);
      var rest := InsertByDistance(t, ts[1..]);
      forall u | u in rest
        ensures !SameEntry(ts[0], u)
      {
        assert u in multiset(rest);
        assert u == t || u in multiset(ts[1..]);
        if u == t {
          assert ts[0] in ts;
        }
      }
      NoRepeatsCons(ts[0], rest);
    }
  }

  /** The sort keeps a list without repeats without repeats. */
  lemma {:induction false} SortNoRepeats(ts: seq<ReachableTarget>)
    requires NoRepeats(ts)
    ensures NoRepeats(SortByDistance(ts))
    decreases |ts|
  {
    if ts != [] {
      assert ts == [ts[0]] + ts[1..];
      NoRepeatsCons(ts[0], ts[1..]);
      SortNoRepeats(ts[1..]);
      SortByDistanceSpec(ts[1..]);
      var sorted := SortByDistance(ts[1..]);
      forall u | u in sorted
        ensures !SameEntry(ts[0], u)
      {
        assert u in multiset(sorted);
      }
      InsertNoRepeats(ts[0], sorted);
    }
  }
}
