/** The vocabulary the generic grid world shares (core.py): outcomes, thing types, directions. */
module GridCore {

  /**
    `Outcomes`: a behaviour answers NOT_DONE (0) to let the next one in a
    chain run, or DONE (1) to stop the chain.
  */
  datatype Outcome = NotDone | Done {
    function Code(): int {
      if this == NotDone then 0 else 1
    }
  }

  /** `ThingTypes`, the tags that `Cell.put` dispatches on. */
  datatype ThingType = AgentType | ActorType | CellType | ObjectType {
    function Name(): string {
      match this
      case AgentType => "AGENT"
      case ActorType => "ACTOR"
      case CellType => "CELL"
      case ObjectType => "OBJECT"
    }
  }

  /** The four compass directions of `Directions`; north is towards y + 1. */
  datatype Direction = North | East | South | West {
    function Name(): string {
      match this
      case North => "NORTH"
      case East => "EAST"
      case South => "SOUTH"
      case West => "WEST"
    }

    function Dx(): int {
      match this
      case North => 0
      case East => 1
      case South => 0
      case West => -1
    }

    function Dy(): int {
      match this
      case North => 1
      case East => 0
      case South => -1
      case West => 0
    }

    /** The wiring done when the module loads: NORTH/SOUTH and EAST/WEST are paired. */
    function Opposite(): Direction {
      match this
      case North => South
      case East => West
      case South => North
      case West => East
    }

    function Coordinates(x: int, y: int): (int, int) {
      (x + Dx(), y + Dy())
    }
  }

  /** `Directions.ALL`. */
  const All: seq<Direction> := [North, East, South, West]

  lemma OutcomeCodes()
    ensures NotDone.Code() == 0 && Done.Code() == 1
    ensures forall o: Outcome, p: Outcome :: o.Code() == p.Code() ==> o == p
  {
  }

  lemma OppositeIsInvolution(d: Direction)
    ensures d.Opposite().Opposite() == d
    ensures d.Opposite() != d
  {
  }

  lemma OppositeNegatesDelta(d: Direction)
    ensures d.Opposite().Dx() == -d.Dx() && d.Opposite().Dy() == -d.Dy()
  {
  }

  /** Each direction moves exactly one cell along exactly one axis. */
  lemma UnitStep(d: Direction)
    ensures (d.Dx() == 0) != (d.Dy() == 0)
    ensures -1 <= d.Dx() <= 1 && -1 <= d.Dy() <= 1
  {
  }

  /** Stepping one way and then the opposite way returns to the start. */
  lemma CoordinatesRoundTrip(d: Direction, x: int, y: int)
    ensures var (x', y') := d.Coordinates(x, y); d.Opposite().Coordinates(x', y') == (x, y)
  {
  }

  /** Directions.ALL lists each of the four directions exactly once. */
  lemma AllDirections()
    ensures |All| == 4
    ensures forall d: Direction :: d in All
    ensures forall i, j :: 0 <= i < j < |All| ==> All[i] != All[j]
  {
    forall d: Direction
      ensures d in All
    {
      match d
      case North => assert All[0] == d;
      case East => assert All[1] == d;
      case South => assert All[2] == d;
      case West => assert All[3] == d;
    }
  }
}
