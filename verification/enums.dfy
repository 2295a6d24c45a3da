/** The direction and status enumerations of the solver. */
module Enums {
  import opened Outcomes

  /** The four sides of a cell; the declaration order is the integer value 0..3. */
  datatype CardinalDirection = TOP | RIGHT | BOT | LEFT

  /** The four corners of a cell; the declaration order is the integer value 0..3. */
  datatype DiagonalDirection = ULEFT | URIGHT | LRIGHT | LLEFT {

    /** The corner diagonally across the cell. */
    function Opposite(): (r: DiagonalDirection)
      ensures r != this
    {
      match this
      case URIGHT => LLEFT
      case LRIGHT => ULEFT
      case LLEFT => URIGHT
      case ULEFT => LRIGHT
    }

    /** The upper corner on the same side. */
    function Ceiling(): (r: DiagonalDirection)
      ensures r == ULEFT || r == URIGHT
    {
      match this
      case LLEFT => ULEFT
      case LRIGHT => URIGHT
      case _ => this
    }

    /** True for the two corners on the top edge of a cell. */
    predicate IsUpper() { this == ULEFT || this == URIGHT }

    /** True for the two corners on the left edge of a cell. */
    predicate IsLeft() { this == ULEFT || this == LLEFT }
  }

  const AllCardinal: seq<CardinalDirection> := [TOP, RIGHT, BOT, LEFT]
  const AllDiagonal: seq<DiagonalDirection> := [ULEFT, URIGHT, LRIGHT, LLEFT]

  function CardinalValue(d: CardinalDirection): (v: int)
    ensures 0 <= v < 4 && AllCardinal[v] == d
  {
    match d
    case TOP => 0
    case RIGHT => 1
    case BOT => 2
    case LEFT => 3
  }

  function DiagonalValue(d: DiagonalDirection): (v: int)
    ensures 0 <= v < 4 && AllDiagonal[v] == d
  {
    match d
    case ULEFT => 0
    case URIGHT => 1
    case LRIGHT => 2
    case LLEFT => 3
  }

  /** Opposite reverses both the vertical and the horizontal side of a corner. */
  lemma OppositeFlipsSides(d: DiagonalDirection)
    ensures d.Opposite().Opposite() == d
    ensures d.Opposite().IsUpper() == !d.IsUpper()
    ensures d.Opposite().IsLeft() == !d.IsLeft()
  {
  }

  /** Ceiling keeps the horizontal side, moves to the top edge, and is idempotent. */
  lemma CeilingKeepsSide(d: DiagonalDirection)
    ensures d.Ceiling().IsLeft() == d.IsLeft()
    ensures d.Ceiling().Ceiling() == d.Ceiling()
    ensures d.IsUpper() <==> d.Ceiling() == d
  {
  }

  /** The status of one border of the board. */
  datatype BorderStatus = UNSET | ACTIVE | BLANK

  function StatusValue(s: BorderStatus): (v: int)
    ensures 0 <= v <= 2
    ensures v == 0 <==> s == UNSET
  {
    match s
    case UNSET => 0
    case ACTIVE => 1
    case BLANK => 2
  }

  /** BorderStatus.opposite: ACTIVE and BLANK swap, UNSET raises ValueError. */
  function StatusOpposite(s: BorderStatus): (r: Result<BorderStatus>)
    ensures r.Ok? <==> s != UNSET
    ensures r.Err? ==> r.error == ValueError
    ensures r.Ok? ==> r.value != UNSET && r.value != s
  {
    match s
    case ACTIVE => Ok(BLANK)
    case BLANK => Ok(ACTIVE)
    case UNSET => Err(ValueError)
  }

  /** BorderStatus.fromInt: 0, 1, 2 map to the statuses; anything else raises ValueError. */
  function StatusFromInt(i: int): (r: Result<BorderStatus>)
    ensures r.Ok? <==> 0 <= i <= 2
    ensures r.Err? ==> r.error == ValueError
  {
    if i == 0 then Ok(UNSET)
    else if i == 1 then Ok(ACTIVE)
    else if i == 2 then Ok(BLANK)
    else Err(ValueError)
  }

  /** The value of Python's int() on a one-character string of an ASCII decimal digit. */
  function DigitValue(c: char): (r: Option<int>)
    ensures r.Some? <==> '0' <= c <= '9'
    ensures r.Some? ==> 0 <= r.value <= 9
  {
    if '0' <= c <= '9' then Some(c as int - '0' as int) else None
  }

  /** BorderStatus.fromChar: int(c) (ValueError for a non-digit), then fromInt. */
  function StatusFromChar(c: char): (r: Result<BorderStatus>)
    ensures r.Ok? <==> c == '0' || c == '1' || c == '2'
    ensures r.Err? ==> r.error == ValueError
  {
    match DigitValue(c)
    case None => Err(ValueError)
    case Some(i) => StatusFromInt(i)
  }

  /** BorderStatus.__str__. */
  function StatusName(s: BorderStatus): string
  {
    match s
    case UNSET => "UNSET"
    case ACTIVE => "ACTIVE"
    case BLANK => "BLANK"
  }

  /** Opposite is an involution on the two set statuses. */
  lemma StatusOppositeInvolution(s: BorderStatus)
    requires s != UNSET
    ensures StatusOpposite(s).Ok? && StatusOpposite(StatusOpposite(s).value) == Ok(s)
  {
  }

  /** fromInt inverts the integer value of a status. */
  lemma StatusValueRoundTrip(s: BorderStatus)
    ensures StatusFromInt(StatusValue(s)) == Ok(s)
  {
  }

  /** fromChar of the decimal digit of a status' value gives the status back. */
  lemma StatusCharRoundTrip(s: BorderStatus)
    ensures StatusFromChar(('0' as int + StatusValue(s)) as char) == Ok(s)
  {
  }

  /** Distinct statuses have distinct names. */
  lemma StatusNameInjective(s: BorderStatus, t: BorderStatus)
    ensures StatusName(s) == StatusName(t) <==> s == t
  {
  }

  /** The number of entries of bs equal to s. */
  function CountOf(bs: seq<BorderStatus>, s: BorderStatus): (n: nat)
    ensures n <= |bs|
  {
    if bs == [] then 0 else CountOf(bs[..|bs| - 1], s) + (if bs[|bs| - 1] == s then 1 else 0)
  }

  /** Every entry has exactly one of the three statuses. */
  lemma {:induction false} CountTotal(bs: seq<BorderStatus>)
    ensures CountOf(bs, UNSET) + CountOf(bs, ACTIVE) + CountOf(bs, BLANK) == |bs|
  {
    if bs != [] {
      CountTotal(bs[..|bs| - 1]);
    }
  }

  /** A count is zero exactly when the status does not occur. */
  lemma {:induction false} CountZero(bs: seq<BorderStatus>, s: BorderStatus)
    ensures CountOf(bs, s) == 0 <==> forall k | 0 <= k < |bs| :: bs[k] != s
  {
    if bs != [] {
      var p := bs[..|bs| - 1];
      CountZero(p, s);
      assert forall k | 0 <= k < |p| :: p[k] == bs[k];
    }
  }

  /** How a corner of a cell is entered by the loop. */
  datatype CornerEntry = POKE | SMOOTH | UNKNOWN {

    /** CornerEntry.opposite: POKE and SMOOTH swap, UNKNOWN raises ValueError. */
    function Opposite(): (r: Result<CornerEntry>)
      ensures r.Ok? <==> this != UNKNOWN
      ensures r.Err? ==> r.error == ValueError
      ensures r.Ok? ==> r.value != UNKNOWN && r.value != this
    {
      match this
      case POKE => Ok(SMOOTH)
      case SMOOTH => Ok(POKE)
      case UNKNOWN => Err(ValueError)
    }
  }

  lemma CornerEntryOppositeInvolution(e: CornerEntry)
    requires e != UNKNOWN
    ensures e.Opposite().Ok? && e.Opposite().value.Opposite() == Ok(e)
  {
  }
}
