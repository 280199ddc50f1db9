/**
 * Localised speech, kept abstract: a message is a string-table key with its
 * format arguments. The English table and `string.Format` are not modelled.
 */
module Messages {

  /** Type tags of points of interest and reachable targets ("poi_*" keys). */
  datatype PoiKind =
    | PoiEnemy | PoiNpc | PoiContainer | PoiScenery | PoiTrap
    | PoiShop | PoiFishing | PoiCards | PoiDoor

  /** The string-table keys the navigation core speaks. */
  datatype Key =
    | DirAhead | DirRight | DirBehind | DirLeft | DirUnknown
    | DirWest | DirNorth | DirEast | DirSouth
    | NavHere | NavUnreachable | NavTurnRight | NavTurnLeft | NavTurnAround | NavGoAhead
    | NavExitItem | NavItem | NavItemHere | NavNoItems | NavCategoryAnnounce
    | NavCatExits | NavCatNpcs | NavCatEnemies | NavCatInteractables | NavCatScenery | NavCatPois
    | PathTurnRight | PathTurnLeft | PathTurnAround | PathGo
    | PathGpsOn | PathGpsOff | PathGpsNext | PathNoBreadcrumbs | PathNoRoute | PathRetrace
    | PathScanning | PathNoTargets | PathTargetsSummary | PathTargetItem | PathTargetUnnamed
    | PathRoute | PathArrived | PathOffRoute | PathRoomVisited | PathRoomNew
    | RoomEnemy | RoomNpc | RoomContainer | RoomScenery | RoomTrap | RoomFishing | RoomCards | RoomShop
    | Poi(kind: PoiKind)

  /** A format argument: a number, raw text, a nested message, or a ", "-joined list of messages. */
  datatype Arg = Num(n: int) | Text(s: string) | Sub(m: Msg) | Joined(parts: seq<Msg>)

  datatype Msg = Msg(key: Key, args: seq<Arg>)

  /** `Loc.Get(key)` without arguments. */
  function Plain(k: Key): Msg {
    Msg(k, [])
  }

  /** What the screen reader was asked to speak: `Say` interrupts, `SayQueued` queues. */
  datatype Speech = Say(text: seq<Msg>) | SayQueued(text: seq<Msg>)
}
