/**
 * Routes: how a path of absolute moves becomes turn-by-turn instructions.
 * Consecutive moves in one direction are grouped into a single "go n ahead",
 * preceded by a turn whenever the move is not straight ahead of the current
 * facing. Both the pathfinding description and the navigation description
 * follow this scheme; they differ only in the words they use.
 */
module Routes {
  import opened Grid
  import opened Messages
  import opened Direction

  /** One instruction: a turn by a relative direction, or `count` moves in absolute direction `direction`. */
  datatype Step = Turn(relative: int) | Go(direction: int, count: nat)

  /** How many leading entries of `p` equal `d`. */
  function RunLength(p: seq<int>, d: int): (n: nat)
    ensures n <= |p|
    decreases |p|
  {
    if p == [] || p[0] != d then 0 else 1 + RunLength(p[1..], d)
  }

  /** The run is a maximal block of `d`s: every entry before it is `d`, the entry after it is not. */
  lemma {:induction false} RunLengthSpec(p: seq<int>, d: int)
    ensures p[..RunLength(p, d)] == Repeat(d, RunLength(p, d))
    ensures RunLength(p, d) < |p| ==> p[RunLength(p, d)] != d
    decreases |p|
  {
    if p != [] && p[0] == d {
      var n := RunLength(p, d);
      RunLengthSpec(p[1..], d);
      assert p[..n] == [d] + p[1..][..n - 1];
    }
  }

  /** A relative direction that calls for a turn: right, behind or left. */
  predicate NeedsTurn(relative: int) {
    relative == 1 || relative == 2 || relative == 3
  }

  /** The turn, if any, that a move in `d` calls for when facing `facing`. */
  function TurnTo(d: int, facing: int): seq<Step> {
    var relative := AbsoluteToRelative(d, facing);
    if NeedsTurn(relative) then [Turn(relative)] else []
  }

  /**
   * The instructions for `p` when the player faces `facing`: for each maximal
   * run of equal moves, a turn if the run's direction is not ahead, then a Go
   * for the whole run; the player then faces the run's direction.
   */
  function RouteSteps(p: seq<int>, facing: int): seq<Step>
    decreases |p|
  {
    if p == [] then []
    else
      var d := p[0];
      var n := RunLength(p, d);
      TurnTo(d, facing) + [Go(d, n)] + RouteSteps(p[n..], d)
  }

  /** The absolute moves a list of instructions stands for, read with the directions it carries. */
  function Flatten(steps: seq<Step>): seq<int> {
    if steps == [] then []
    else
      match steps[0]
      case Turn(_) => Flatten(steps[1..])
      case Go(d, n) => Repeat(d, n) + Flatten(steps[1..])
  }

  /**
   * The absolute moves a listener reconstructs who hears only the relative
   * instructions: a turn changes the facing, and each Go walks straight ahead.
   */
  function Hear(steps: seq<Step>, facing: int): seq<int> {
    if steps == [] then []
    else
      match steps[0]
      case Turn(r) => Hear(steps[1..], (facing + r) % 4)
      case Go(_, n) => Repeat(facing, n) + Hear(steps[1..], facing)
  }

  /** The instructions cover the path exactly: grouping loses and adds no move. */
  lemma {:induction false} FlattenRouteSteps(p: seq<int>, facing: int)
    ensures Flatten(RouteSteps(p, facing)) == p
    decreases |p|
  {
    if p != [] {
      var d := p[0];
      var n := RunLength(p, d);
      var rest := RouteSteps(p[n..], d);
      var steps := RouteSteps(p, facing);
      assert Flatten([Go(d, n)] + rest) == Repeat(d, n) + p[n..] by {
        FlattenRouteSteps(p[n..], d);
        assert ([Go(d, n)] + rest)[1..] == rest;
      }
      assert Flatten(steps) == Flatten([Go(d, n)] + rest) by {
        if NeedsTurn(AbsoluteToRelative(d, facing)) {
          assert steps[1..] == [Go(d, n)] + rest;
        } else {
          assert steps == [Go(d, n)] + rest;
        }
      }
      assert Repeat(d, n) == p[..n] by {
        RunLengthSpec(p, d);
      }
      assert p == p[..n] + p[n..];
    }
  }

  /** Hearing one turn-then-go group leaves the listener facing the group's direction. */
  lemma HearGroup(d: int, n: nat, facing: int, rest: seq<Step>)
    requires IsDir(d) && IsDir(facing)
    ensures Hear(TurnTo(d, facing) + [Go(d, n)] + rest, facing) == Repeat(d, n) + Hear(rest, d)
  {
    var group := [Go(d, n)] + rest;
    assert group[1..] == rest;
    var relative := AbsoluteToRelative(d, facing);
    if NeedsTurn(relative) {
      assert (TurnTo(d, facing) + group)[1..] == group;
      assert (facing + relative) % 4 == d;
    } else {
      assert TurnTo(d, facing) + group == group;
    }
  }

  lemma DirsSuffix(p: seq<int>, n: nat)
    requires n <= |p| && forall k | 0 <= k < |p| :: IsDir(p[k])
    ensures forall k | 0 <= k < |p[n..]| :: IsDir(p[n..][k])
  {
    assert forall k | 0 <= k < |p[n..]| :: p[n..][k] == p[n + k];
  }

  /**
   * The relative instructions are enough: a listener who starts facing the
   * player's look direction and follows only the turns and step counts walks
   * the original path, provided every direction involved is a real one.
   */
  lemma {:induction false} HearRouteSteps(p: seq<int>, facing: int)
    requires IsDir(facing)
    requires forall k | 0 <= k < |p| :: IsDir(p[k])
    ensures Hear(RouteSteps(p, facing), facing) == p
    decreases |p|
  {
    if p != [] {
      var d := p[0];
      var n := RunLength(p, d);
      var rest := RouteSteps(p[n..], d);
      assert Hear(rest, d) == p[n..] by {
        DirsSuffix(p, n);
        HearRouteSteps(p[n..], d);
      }
      assert Repeat(d, n) == p[..n] by {
        RunLengthSpec(p, d);
      }
      calc {
        Hear(RouteSteps(p, facing), facing);
        { assert RouteSteps(p, facing) == TurnTo(d, facing) + [Go(d, n)] + rest;
          HearGroup(d, n, facing, rest); }
        Repeat(d, n) + Hear(rest, d);
        p[..n] + p[n..];
        { assert p[..n] + p[n..] == p; }
        p;
      }
    }
  }

  /** The directions of the Go instructions, in order. */
  function GoDirections(steps: seq<Step>): seq<int> {
    if steps == [] then []
    else if steps[0].Go? then [steps[0].direction] + GoDirections(steps[1..])
    else GoDirections(steps[1..])
  }

  /** Every turn is a real turn followed by a Go, and every Go moves at least once. */
  predicate Shaped(steps: seq<Step>) {
    && (forall k | 0 <= k < |steps| && steps[k].Turn? ::
          NeedsTurn(steps[k].relative) && k + 1 < |steps| && steps[k + 1].Go?)
    && (forall k | 0 <= k < |steps| && steps[k].Go? :: steps[k].count >= 1)
  }

  lemma ShapedGroup(d: int, n: nat, facing: int, rest: seq<Step>)
    requires n >= 1 && Shaped(rest)
    ensures Shaped(TurnTo(d, facing) + [Go(d, n)] + rest)
  {
    var group := [Go(d, n)] + rest;
    assert forall k | 1 <= k < |group| :: group[k] == rest[k - 1];
    var steps := TurnTo(d, facing) + group;
    if TurnTo(d, facing) != [] {
      assert forall k | 1 <= k < |steps| :: steps[k] == group[k - 1];
    } else {
      assert steps == group;
    }
  }

  /** The instructions are in normal form: every turn is a real turn followed by a Go, and every Go moves. */
  lemma {:induction false} RouteStepsShaped(p: seq<int>, facing: int)
    ensures Shaped(RouteSteps(p, facing))
    decreases |p|
  {
    if p != [] {
      var d := p[0];
      var n := RunLength(p, d);
      RouteStepsShaped(p[n..], d);
      ShapedGroup(d, n, facing, RouteSteps(p[n..], d));
    }
  }

  /**
   * Runs are maximal: two successive Go instructions never share a
   * direction, and the first goes the path's first way.
   */
  lemma {:induction false} RouteStepsMaximalRuns(p: seq<int>, facing: int)
    ensures forall k | 0 <= k < |GoDirections(RouteSteps(p, facing))| - 1 ::
              GoDirections(RouteSteps(p, facing))[k] != GoDirections(RouteSteps(p, facing))[k + 1]
    ensures p != [] ==> GoDirections(RouteSteps(p, facing)) != [] && GoDirections(RouteSteps(p, facing))[0] == p[0]
    decreases |p|
  {
    if p != [] {
      var d := p[0];
      var n := RunLength(p, d);
      var rest := RouteSteps(p[n..], d);
      RouteStepsMaximalRuns(p[n..], d);
      var group := [Go(d, n)] + rest;
      assert GoDirections(group) == [d] + GoDirections(rest) by {
        assert group[1..] == rest;
      }
      var steps := RouteSteps(p, facing);
      if TurnTo(d, facing) != [] {
        assert steps[1..] == group;
      } else {
        assert steps == group;
      }
      assert GoDirections(steps) == [d] + GoDirections(rest);
      if n < |p| {
        RunLengthSpec(p, d);
        assert p[n..][0] == p[n] != d;
      }
    }
  }

  /** The words the pathfinding description uses for one instruction. */
  function PathMsg(s: Step): Msg {
    match s
    case Turn(r) =>
      if r == 1 then Plain(PathTurnRight) else if r == 3 then Plain(PathTurnLeft) else Plain(PathTurnAround)
    case Go(_, n) => Msg(PathGo, [Num(n), Sub(Plain(DirAhead))])
  }

  /** The words the navigation description uses for one instruction. */
  function NavMsg(s: Step): Msg {
    match s
    case Turn(r) =>
      if r == 1 then Plain(NavTurnRight) else if r == 3 then Plain(NavTurnLeft) else Plain(NavTurnAround)
    case Go(_, n) => Msg(NavGoAhead, [Num(n)])
  }

  /** The pathfinding words for a list of instructions, one message per instruction. */
  function PathMsgs(steps: seq<Step>): seq<Msg> {
    seq(|steps|, k requires 0 <= k < |steps| => PathMsg(steps[k]))
  }

  /** The navigation words for a list of instructions, one message per instruction. */
  function NavMsgs(steps: seq<Step>): seq<Msg> {
    seq(|steps|, k requires 0 <= k < |steps| => NavMsg(steps[k]))
  }

  /** The step a single move calls for: a turn exactly when the move is not ahead. */
  lemma SingleMoveSteps(d: int, facing: int)
    ensures RouteSteps([d], facing) == TurnTo(d, facing) + [Go(d, 1)]
  {
    assert RunLength([d], d) == 1;
    assert [d][1..] == [];
  }

  lemma ConcatAssoc<T>(a: seq<T>, b: seq<T>, c: seq<T>, d: seq<T>)
    ensures a + (b + c + d) == a + b + c + d
  {
  }

  lemma PathMsgsSnoc(a: seq<Step>, s: Step)
    ensures PathMsgs(a + [s]) == PathMsgs(a) + [PathMsg(s)]
  {
  }

  lemma NavMsgsSnoc(a: seq<Step>, s: Step)
    ensures NavMsgs(a + [s]) == NavMsgs(a) + [NavMsg(s)]
  {
  }

  /** A run of `n` equal leading moves that the next move breaks is the run RouteSteps groups. */
  lemma {:induction false} RunLengthIs(p: seq<int>, d: int, n: nat)
    requires n <= |p| && (forall k | 0 <= k < n :: p[k] == d) && (n < |p| ==> p[n] != d)
    ensures RunLength(p, d) == n
    decreases n
  {
    if n > 0 {
      assert forall k | 0 <= k < n - 1 :: p[1..][k] == p[k + 1];
      RunLengthIs(p[1..], d, n - 1);
    }
  }

  /** One group of RouteSteps: the turn for the run's direction, the run, then the rest from that direction. */
  lemma RouteStepsGroup(p: seq<int>, i: nat, j: nat, facing: int, d: int, n: nat)
    requires i < j <= |p| && d == p[i] && n == j - i
    requires (forall k | i <= k < j :: p[k] == d) && (j < |p| ==> p[j] != d)
    ensures RouteSteps(p[i..], facing) == TurnTo(d, facing) + [Go(d, n)] + RouteSteps(p[j..], d)
  {
    var q := p[i..];
    assert q[0] == d;
    RunLengthIs(q, d, n);
    assert q[n..] == p[j..];
  }

  /**
   * The inner loop of both route describers: from `start`, step over the
   * entries equal to the one at `start`; the result is where that run ends.
   */
  method SkipRun(p: seq<int>, start: nat) returns (end: nat)
    requires start < |p|
    ensures start < end <= |p|
    ensures forall k | start <= k < end :: p[k] == p[start]
    ensures end < |p| ==> p[end] != p[start]
  {
    var moveDir := p[start];
    end := start;
    while end < |p| && p[end] == moveDir
      invariant start <= end <= |p|
      invariant forall k | start <= k < end :: p[k] == moveDir
    {
      end := end + 1;
    }
  }

  /**
   * Progress through a path: if `done0` are the instructions for the moves
   * before position `i0`, then adding the turn and the Go for the run
   * `p[i0..i]` gives the instructions for the moves before `i`.
   */
  lemma RouteProgress(p: seq<int>, facing: int, done0: seq<Step>, done: seq<Step>, i0: nat, i: nat, facing0: int,
                       d: int, n: nat)
    requires i0 < i <= |p| && d == p[i0] && n == i - i0
    requires (forall k | i0 <= k < i :: p[k] == d) && (i < |p| ==> p[i] != d)
    requires done0 + RouteSteps(p[i0..], facing0) == RouteSteps(p, facing)
    requires done == done0 + TurnTo(d, facing0)
    ensures done + [Go(d, n)] + RouteSteps(p[i..], d) == RouteSteps(p, facing)
  {
    RouteStepsGroup(p, i0, i, facing0, d, n);
    ConcatAssoc(done0, TurnTo(d, facing0), [Go(d, n)], RouteSteps(p[i..], d));
  }
}
