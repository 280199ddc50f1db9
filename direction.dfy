/**
 * Direction arithmetic (DirectionHelper). Absolute directions: 0 = west (left),
 * 1 = north (up), 2 = east (right), 3 = south (down). Relative directions:
 * 0 = ahead, 1 = right, 2 = behind, 3 = left.
 */
module Direction {
  import opened Wrappers
  import opened Grid
  import opened Messages

  predicate IsDir(d: int) {
    0 <= d < 4
  }

  /** C#'s `%` on int: truncates toward zero, so the remainder has the dividend's sign. */
  function CsRem(a: int, b: int): (r: int)
    requires b > 0
    ensures a >= 0 ==> r == a % b
    ensures a < 0 ==> -b < r <= 0
  {
    if a >= 0 then a % b else -((-a) % b)
  }

  /**
   * `(absoluteDir - lookDirection + 4) % 4`. On genuine directions the result
   * is a direction, it is "ahead" exactly when the two agree, and turning from
   * the facing by the result lands on the absolute direction again.
   */
  function AbsoluteToRelative(absoluteDir: int, lookDirection: int): (r: int)
    ensures -4 < r < 4
    ensures IsDir(absoluteDir) && IsDir(lookDirection) ==>
              && IsDir(r)
              && (r == 0 <==> absoluteDir == lookDirection)
              && (lookDirection + r) % 4 == absoluteDir
  {
    CsRem(absoluteDir - lookDirection + 4, 4)
  }

  /** Spoken name of a relative direction; anything but 0..3 is "dir_unknown". */
  function GetRelativeName(relativeDir: int): (k: Key)
    ensures k == DirUnknown <==> !IsDir(relativeDir)
  {
    match relativeDir
    case 0 => DirAhead
    case 1 => DirRight
    case 2 => DirBehind
    case 3 => DirLeft
    case _ => DirUnknown
  }

  /** Spoken name of an absolute direction; anything but 0..3 is "dir_unknown". */
  function GetAbsoluteName(absoluteDir: int): (k: Key)
    ensures k == DirUnknown <==> !IsDir(absoluteDir)
  {
    match absoluteDir
    case 0 => DirWest
    case 1 => DirNorth
    case 2 => DirEast
    case 3 => DirSouth
    case _ => DirUnknown
  }

  /** Different directions get different names, and relative names never collide with absolute ones. */
  lemma DirectionNamesDistinct(a: int, b: int)
    requires IsDir(a) && IsDir(b)
    ensures a != b ==> GetRelativeName(a) != GetRelativeName(b) && GetAbsoluteName(a) != GetAbsoluteName(b)
    ensures GetRelativeName(a) != GetAbsoluteName(b)
  {
  }

  /** The neighbour of `piece` in `absoluteDir`; null for a null piece or a direction outside 0..3. */
  function GetAdjacentPiece(g: Grid, piece: Option<Piece>, absoluteDir: int): (r: Option<Piece>)
    requires g.Valid() && InRange(piece, |g.cells|)
    ensures InRange(r, |g.cells|)
    ensures r.Some? ==> piece.Some? && IsDir(absoluteDir)
  {
    if piece.None? then None
    else
      var c := g.cells[piece.value];
      match absoluteDir
      case 0 => c.leftPiece
      case 1 => c.upPiece
      case 2 => c.rightPiece
      case 3 => c.downPiece
      case _ => None
  }

  /** West, north, east and south lead along the piece's left, up, right and down links. */
  lemma AdjacentLinks(g: Grid, p: Piece)
    requires g.Valid() && g.Has(p)
    ensures GetAdjacentPiece(g, Some(p), 0) == g.cells[p].leftPiece
    ensures GetAdjacentPiece(g, Some(p), 1) == g.cells[p].upPiece
    ensures GetAdjacentPiece(g, Some(p), 2) == g.cells[p].rightPiece
    ensures GetAdjacentPiece(g, Some(p), 3) == g.cells[p].downPiece
  {
  }

  /** The opposite direction: 0 and 2 swap, 1 and 3 swap; anything else gives 0. */
  function InverseDirection(dir: int): (r: int)
    ensures IsDir(dir) ==> IsDir(r) && r == (dir + 2) % 4 && r != dir
    ensures !IsDir(dir) ==> r == 0
  {
    match dir
    case 0 => 2
    case 1 => 3
    case 2 => 0
    case 3 => 1
    case _ => 0
  }

  lemma InverseIsInvolution(d: int)
    requires IsDir(d)
    ensures InverseDirection(InverseDirection(d)) == d
  {
  }

  /** The direction opposite to the facing is "behind". */
  lemma OppositeIsBehind(d: int)
    requires IsDir(d)
    ensures AbsoluteToRelative(InverseDirection(d), d) == 2
  {
  }

  /** The piece reached by `n` steps in one direction, or null once a step has no neighbour. */
  function Walk(g: Grid, start: Piece, dir: int, n: nat): (r: Option<Piece>)
    requires g.Valid() && g.Has(start)
    ensures InRange(r, |g.cells|)
    decreases n
  {
    if n == 0 then Some(start)
    else
      match GetAdjacentPiece(g, Some(start), dir)
      case None => None
      case Some(next) => Walk(g, next, dir, n - 1)
  }

  /** The piece reached by replaying absolute directions from `start`, or null once a step has no neighbour. */
  function Follow(g: Grid, start: Piece, path: seq<int>): (r: Option<Piece>)
    requires g.Valid() && g.Has(start)
    ensures InRange(r, |g.cells|)
    decreases |path|
  {
    if path == [] then Some(start)
    else
      match GetAdjacentPiece(g, Some(start), path[0])
      case None => None
      case Some(next) => Follow(g, next, path[1..])
  }

  /** Replaying one step more goes on from where the shorter replay ended. */
  lemma {:induction false} FollowSnoc(g: Grid, start: Piece, path: seq<int>, d: int)
    requires g.Valid() && g.Has(start)
    ensures Follow(g, start, path + [d]) ==
              match Follow(g, start, path)
              case None => None
              case Some(last) => GetAdjacentPiece(g, Some(last), d)
    decreases |path|
  {
    if path == [] {
      assert [] + [d] == [d] && [d][1..] == [];
    } else {
      assert (path + [d])[1..] == path[1..] + [d];
      match GetAdjacentPiece(g, Some(start), path[0])
      case None =>
      case Some(next) => FollowSnoc(g, next, path[1..], d);
    }
  }

  function Repeat(d: int, n: nat): (s: seq<int>)
    ensures |s| == n && forall k | 0 <= k < n :: s[k] == d
  {
    seq(n, _ => d)
  }

  /** Walking `n` steps in one direction is replaying the path of `n` copies of it. */
  lemma {:induction false} WalkIsFollow(g: Grid, start: Piece, dir: int, n: nat)
    requires g.Valid() && g.Has(start)
    ensures Walk(g, start, dir, n) == Follow(g, start, Repeat(dir, n))
    decreases n
  {
    if n > 0 {
      assert Repeat(dir, n)[1..] == Repeat(dir, n - 1);
      match GetAdjacentPiece(g, Some(start), dir)
      case None =>
      case Some(next) => WalkIsFollow(g, next, dir, n - 1);
    }
  }
}
