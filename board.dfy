/**
 * The board: five ship slots, the collision check, the ship lookup and the
 * placement of the fleet (main.c:143-160, 194-240).
 */
module Boards {
  import opened Options
  import opened Geometry

  /** Number of ship slots on a board (NUM_SHIP_TYPES). */
  const NumShipTypes: int := 5

  /** A ship is a segment from `start` to `end`; ship_create sets `isSunken` to 0 and nothing changes it later. */
  datatype Ship = Ship(start: Point, end: Point, isSunken: int)

  /** The three rand() results one placement attempt draws: start column, start row, orientation. */
  datatype Roll = Roll(x: nat, y: nat, orient: nat)

  /** The ship's segment passes the point-on-segment test at `p`. */
  predicate Covers(s: Ship, p: Point) {
    PointOnSegment(p, s.start, s.end)
  }

  /** A ship as placement leaves it: straight, start not after end, both ends on the board. */
  predicate WellPlaced(s: Ship) {
    AxisAligned(s.start, s.end) && Ordered(s.start, s.end) && OnGrid(s.start) && OnGrid(s.end)
  }

  /** End minus start along the ship's axis (one less than its number of cells). */
  function Span(s: Ship): int {
    (s.end.x - s.start.x) + (s.end.y - s.start.y)
  }

  /**
   * The ship one attempt proposes for span `span`: the start cell is each roll
   * reduced modulo BoardSize - span, and an odd orientation roll extends it
   * along x, an even one along y.
   */
  function Candidate(roll: Roll, span: int): (s: Ship)
    requires 1 <= span <= 5
    ensures WellPlaced(s) && Span(s) == span && s.isSunken == 0
  {
    var start := Point(roll.x % (BoardSize - span), roll.y % (BoardSize - span));
    var end := if roll.orient % 2 != 0 then Point(start.x + span, start.y)
               else Point(start.x, start.y + span);
    Ship(start, end, 0)
  }

  /** board_canPlaceShip's verdict: no filled slot's segment, walked cell by cell, meets the candidate. */
  predicate CanPlace(ships: seq<Option<Ship>>, start: Point, end: Point) {
    forall i | 0 <= i < |ships| && ships[i].Some? ::
      !LinesIntersect(ships[i].value.start, ships[i].value.end, start, end)
  }

  /** Every slot is filled, which board_shipAt relies on. */
  predicate AllPresent(ships: seq<Option<Ship>>) {
    forall i | 0 <= i < |ships| :: ships[i].Some?
  }

  /**
   * What board_shipAt computes, scanning from slot `from`: the lowest-index
   * ship covering `p`, or None when no ship covers it.
   */
  function ShipAtFrom(ships: seq<Option<Ship>>, p: Point, from: nat): (r: Option<Ship>)
    requires from <= |ships| && AllPresent(ships)
    ensures r.None? <==> forall i | from <= i < |ships| :: !Covers(ships[i].value, p)
    ensures r.Some? ==> exists i | from <= i < |ships| ::
      r == ships[i] && Covers(ships[i].value, p) && forall j | from <= j < i :: !Covers(ships[j].value, p)
    decreases |ships| - from
  {
    if from == |ships| then None
    else if Covers(ships[from].value, p) then ships[from]
    else ShipAtFrom(ships, p, from + 1)
  }

  /** On a board of well-placed ships, the lookup finds a ship exactly when the point is one of some ship's cells. */
  lemma {:induction false} ShipAtIffOnSomeShip(ships: seq<Option<Ship>>, p: Point)
    requires AllPresent(ships)
    requires forall i | 0 <= i < |ships| :: WellPlaced(ships[i].value)
    ensures ShipAtFrom(ships, p, 0).Some? <==>
      exists i | 0 <= i < |ships| :: InBox(p, ships[i].value.start, ships[i].value.end)
  {
    forall i | 0 <= i < |ships|
      ensures Covers(ships[i].value, p) <==> InBox(p, ships[i].value.start, ships[i].value.end)
    {
      OnSegmentIffInBox(p, ships[i].value.start, ships[i].value.end);
    }
  }

  /** On a board with no ships every candidate is accepted. */
  lemma EmptyBoardAcceptsAll(ships: seq<Option<Ship>>, start: Point, end: Point)
    requires forall i | 0 <= i < |ships| :: ships[i].None?
    ensures CanPlace(ships, start, end)
  {
  }

  /** For placed ships and a well-placed candidate, the check accepts exactly when no ship shares a cell with it. */
  lemma {:induction false} CanPlaceIffNoSharedCell(ships: seq<Option<Ship>>, start: Point, end: Point)
    requires forall i | 0 <= i < |ships| && ships[i].Some? :: WellPlaced(ships[i].value)
    requires WellPlaced(Ship(start, end, 0))
    ensures CanPlace(ships, start, end) <==>
      forall i | 0 <= i < |ships| && ships[i].Some? :: !ShareCell(ships[i].value.start, ships[i].value.end, start, end)
  {
    forall i | 0 <= i < |ships| && ships[i].Some?
      ensures LinesIntersect(ships[i].value.start, ships[i].value.end, start, end) <==>
              ShareCell(ships[i].value.start, ships[i].value.end, start, end)
    {
      IntersectIffShareCell(ships[i].value.start, ships[i].value.end, start, end);
    }
  }

  /**
   * The pairs placement has checked once `placed` slots are filled: a new ship
   * `k` against every earlier new ship and against every slot it did not
   * overwrite, the existing ship walked first as board_canPlaceShip does.
   */
  ghost predicate PlacedApart(ships: seq<Option<Ship>>, placed: nat)
    requires placed <= |ships|
    requires forall k | 0 <= k < placed :: ships[k].Some?
  {
    forall j, k | 0 <= k < placed && 0 <= j < |ships| && (j < k || placed <= j) && ships[j].Some? ::
      !LinesIntersect(ships[j].value.start, ships[j].value.end, ships[k].value.start, ships[k].value.end)
  }

  /** Ships placed by the fleet placement never share a cell. */
  lemma {:induction false} PlacedFleetDisjoint(ships: seq<Option<Ship>>, placed: nat)
    requires placed <= |ships|
    requires forall k | 0 <= k < placed :: ships[k].Some? && WellPlaced(ships[k].value)
    requires PlacedApart(ships, placed)
    ensures forall j, k | 0 <= j < placed && 0 <= k < placed && j != k ::
      !ShareCell(ships[j].value.start, ships[j].value.end, ships[k].value.start, ships[k].value.end)
  {
    forall j, k | 0 <= j < placed && 0 <= k < placed && j != k
      ensures !ShareCell(ships[j].value.start, ships[j].value.end, ships[k].value.start, ships[k].value.end)
    {
      var a, b := ships[j].value, ships[k].value;
      if j < k {
        IntersectIffShareCell(a.start, a.end, b.start, b.end);
      } else {
        IntersectIffShareCell(b.start, b.end, a.start, a.end);
      }
    }
  }

  /**
   * What board_placeShips does from slot `i` and roll `used` on: while a slot
   * is left and a roll remains, the roll's candidate for span
   * NumShipTypes - i is stored in slot `i` when the collision check accepts
   * it, and otherwise the next roll is tried for the same span. Yields the
   * final slots, the number of ships placed and the number of rolls consumed.
   */
  function PlaceFrom(b: seq<Option<Ship>>, rolls: seq<Roll>, i: nat, used: nat): (r: (seq<Option<Ship>>, nat, nat))
    requires |b| == NumShipTypes && i <= NumShipTypes && used <= |rolls|
    ensures |r.0| == |b| && i <= r.1 <= NumShipTypes && used <= r.2 <= |rolls|
    ensures r.1 < NumShipTypes ==> r.2 == |rolls|
    decreases |rolls| - used
  {
    if i == NumShipTypes || used == |rolls| then (b, i, used)
    else
      var c := Candidate(rolls[used], NumShipTypes - i);
      if CanPlace(b, c.start, c.end) then PlaceFrom(b[i := Some(c)], rolls, i + 1, used + 1)
      else PlaceFrom(b, rolls, i, used + 1)
  }

  /** An accepted candidate is stored in slot `i` and placement moves on to the next slot and roll. */
  lemma PlaceFromAccepts(b: seq<Option<Ship>>, rolls: seq<Roll>, i: nat, used: nat)
    requires |b| == NumShipTypes && i < NumShipTypes && used < |rolls|
    requires var c := Candidate(rolls[used], NumShipTypes - i); CanPlace(b, c.start, c.end)
    ensures PlaceFrom(b, rolls, i, used) ==
      PlaceFrom(b[i := Some(Candidate(rolls[used], NumShipTypes - i))], rolls, i + 1, used + 1)
  {
  }

  /** A rejected candidate leaves the slots as they were and the same span is tried with the next roll. */
  lemma PlaceFromRejects(b: seq<Option<Ship>>, rolls: seq<Roll>, i: nat, used: nat)
    requires |b| == NumShipTypes && i < NumShipTypes && used < |rolls|
    requires var c := Candidate(rolls[used], NumShipTypes - i); !CanPlace(b, c.start, c.end)
    ensures PlaceFrom(b, rolls, i, used) == PlaceFrom(b, rolls, i, used + 1)
  {
  }

  /** Slots below `i` hold ships as placement leaves them: well placed, of span NumShipTypes - k, not sunk. */
  predicate PlacedPrefix(b: seq<Option<Ship>>, i: nat)
    requires i <= |b|
  {
    forall k | 0 <= k < i ::
      b[k].Some? && WellPlaced(b[k].value) && Span(b[k].value) == NumShipTypes - k && b[k].value.isSunken == 0
  }

  /** Storing an accepted candidate in slot `i` extends the checked pairs to slot `i`. */
  lemma PlacedApartExtend(b: seq<Option<Ship>>, i: nat, c: Ship)
    requires i < |b| && forall k | 0 <= k < i :: b[k].Some?
    requires PlacedApart(b, i) && CanPlace(b, c.start, c.end)
    ensures PlacedApart(b[i := Some(c)], i + 1)
  {
  }

  /**
   * Placement keeps the slots already filled, leaves the slots after the last
   * placed ship untouched, fills the slots in between with ships as placement
   * leaves them, keeps every placed pair checked, and stops short of five
   * ships only when the rolls run out.
   */
  lemma {:induction false} PlaceFromProps(b: seq<Option<Ship>>, rolls: seq<Roll>, i: nat, used: nat)
    requires |b| == NumShipTypes && i <= NumShipTypes && used <= |rolls|
    requires PlacedPrefix(b, i) && PlacedApart(b, i)
    ensures var r := PlaceFrom(b, rolls, i, used);
      r.0[..i] == b[..i] && r.0[r.1..] == b[r.1..] &&
      PlacedPrefix(r.0, r.1) && PlacedApart(r.0, r.1)
    decreases |rolls| - used
  {
    if i < NumShipTypes && used < |rolls| {
      var c := Candidate(rolls[used], NumShipTypes - i);
      if CanPlace(b, c.start, c.end) {
        var b' := b[i := Some(c)];
        PlacedApartExtend(b, i, c);
        PlaceFromProps(b', rolls, i + 1, used + 1);
        var r := PlaceFrom(b', rolls, i + 1, used + 1);
        assert r.0[..i] == r.0[..i + 1][..i];
        assert b'[..i] == b[..i];
        assert r.0[r.1..] == b'[r.1..] && b'[r.1..] == b[r.1..];
      } else {
        PlaceFromProps(b, rolls, i, used + 1);
      }
    }
  }

  /** On an empty board the first roll is always accepted and becomes the largest ship in slot 0. */
  lemma FirstRollPlacedOnEmptyBoard(b: seq<Option<Ship>>, rolls: seq<Roll>)
    requires |b| == NumShipTypes && forall k | 0 <= k < |b| :: b[k].None?
    requires |rolls| > 0
    ensures PlaceFrom(b, rolls, 0, 0).0[0] == Some(Candidate(rolls[0], NumShipTypes))
    ensures PlaceFrom(b, rolls, 0, 0).1 >= 1
  {
    var c := Candidate(rolls[0], NumShipTypes);
    EmptyBoardAcceptsAll(b, c.start, c.end);
    var b' := b[0 := Some(c)];
    PlacedApartExtend(b, 0, c);
    PlaceFromProps(b', rolls, 1, 1);
    var r := PlaceFrom(b', rolls, 1, 1);
    assert r.0[..1][0] == r.0[0];
  }

  /** A board owns a fixed array of five ship slots; a None slot is a NULL pointer. */
  class Board {
    var ships: array<Option<Ship>>

    ghost predicate Valid()
      reads this
    {
      ships.Length == NumShipTypes
    }

    /** board_create: every slot starts empty. */
    constructor ()
      ensures Valid() && fresh(ships)
      ensures forall i | 0 <= i < ships.Length :: ships[i].None?
    {
      var slots := new Option<Ship>[NumShipTypes];
      var i := 0;
      while i < NumShipTypes
        invariant 0 <= i <= NumShipTypes
        invariant forall k | 0 <= k < i :: slots[k].None?
      {
        slots[i] := None;
        i := i + 1;
      }
      ships := slots;
    }

    /** board_canPlaceShip: slots in order, skipping empty ones, rejecting at the first crossing. */
    method CanPlaceShip(start: Point, end: Point) returns (ok: bool)
      requires Valid()
      ensures ok == CanPlace(ships[..], start, end)
    {
      for i := 0 to NumShipTypes
        invariant forall k | 0 <= k < i && ships[k].Some? ::
          !LinesIntersect(ships[k].value.start, ships[k].value.end, start, end)
      {
        if ships[i].Some? {
          var ship := ships[i].value;
          var crosses := LineIntersectsLine(ship.start, ship.end, start, end);
          if crosses {
            return false;
          }
        }
      }
      return true;
    }

    /**
     * board_shipAt: it reads the slots in order without a NULL check until the
     * first covering ship. Requiring all five filled is a simplification that
     * the only call site meets: `player_attackPlayer` (main.c:178), which
     * `main` reaches at main.c:110 on the board filled at main.c:108.
     */
    method ShipAt(p: Point) returns (r: Option<Ship>)
      requires Valid() && AllPresent(ships[..])
      ensures r == ShipAtFrom(ships[..], p, 0)
    {
      for i := 0 to NumShipTypes
        invariant ShipAtFrom(ships[..], p, i) == ShipAtFrom(ships[..], p, 0)
      {
        var ship := ships[i].value;
        if PointOnSegment(p, ship.start, ship.end) {
          return ships[i];
        }
      }
      return None;
    }

    /**
     * board_placeShips. Each attempt consumes one roll; a rejected attempt
     * retries the same span, an accepted one fills the next slot. The rand()
     * stream is the finite sequence `rolls`: when it runs out before the fifth
     * ship the placement stops there. The outcome is `PlaceFrom` from slot 0
     * and roll 0.
     */
    method PlaceShips(rolls: seq<Roll>) returns (placed: nat, used: nat)
      requires Valid()
      modifies ships
      ensures (ships[..], placed, used) == PlaceFrom(old(ships[..]), rolls, 0, 0)
      ensures placed <= NumShipTypes && used <= |rolls|
      ensures placed < NumShipTypes ==> used == |rolls|
      ensures ships[placed..] == old(ships[placed..])
      ensures PlacedPrefix(ships[..], placed) && PlacedApart(ships[..], placed)
    {
      var shipSize, i := 6, 0;
      used := 0;
      while shipSize >= 2 && used < |rolls|
        invariant 0 <= i <= NumShipTypes && shipSize == 6 - i
        invariant used <= |rolls|
        invariant PlaceFrom(ships[..], rolls, i, used) == PlaceFrom(old(ships[..]), rolls, 0, 0)
        decreases |rolls| - used
      {
        shipSize := shipSize - 1;
        var ship := Candidate(rolls[used], shipSize);
        var ok := CanPlaceShip(ship.start, ship.end);
        if ok {
          PlaceFromAccepts(ships[..], rolls, i, used);
          ships[i] := Some(ship);
          i := i + 1;
        } else {
          PlaceFromRejects(ships[..], rolls, i, used);
          shipSize := shipSize + 1;
        }
        used := used + 1;
      }
      placed := i;
      PlaceFromProps(old(ships[..]), rolls, 0, 0);
    }
  }
}
