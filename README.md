# Battleship game core in Dafny

A model of the game core of a single-file C Battleship program (`main.c`):
the 10×10 grid geometry, the board with its five ship slots, the random
placement of the fleet, and the recording of attacks in a player's log of
100 slots. The program's NULL-able pointer slots are `Option` values. Its
heap-allocated points are plain `(x, y)` values.

- `options.dfy`: `Options.Option`, an empty slot or a filled one.
- `geometry.dfy`: `Point`, the range test `IsWithin`, the point-on-segment
  test `PointOnSegment`, and the segment walk. The walk has a specification
  function `LinesIntersect` and a loop method `LineIntersectsLine` proved
  against it. Lemmas relate these tests to the set of cells of an ordered,
  axis-aligned segment (`InBox`, `ShareCell`).
- `board.dfy`: the `Ship` value and `Board`, a class over an array of five
  `Option<Ship>` slots. It has the collision check `CanPlaceShip`, the
  lookup `ShipAt` and the placement `PlaceShips`. Each is a loop method
  proved against a specification function (`CanPlace`, `ShipAtFrom`,
  `PlaceFrom`).
- `player.dfy`: `Attack` and `Player`, a class with a board and an array of
  100 `Option<Attack>` slots. `AttackPlayer` is proved against the log
  functions `FirstEmptyFrom`, `Record` and `Entries`. The lemmas show that
  recording keeps the filled slots a prefix and appends to the entries.

The value constructors `point_create`, `ship_create` and `attack_create`
are the datatype constructors `Point`, `Ship` and `Attack`. A ship is
created with `isSunken` equal to 0. Nothing in the program changes it
afterwards, and `Ship` values are immutable.

Two behaviours of the code need a note:

- `utils_isWithin` tries to swap its bounds when `a > b`, but only
  overwrites `b` with `a`. A reversed range therefore admits only `n == a`.
  The consequence is that the end of a reversed segment is not on it
  (`ReversedSegmentMissesEnd`). Placement always builds ships with start ≤
  end, so every ship the game creates is unaffected (`OnSegmentIffInBox`).
- `board_shipAt` reads the slots in order without a NULL check until the
  first covering ship. `ShipAt` and `AttackPlayer` require all five slots to
  be filled. This is a simplification that the only call site meets. That
  call site is `player_attackPlayer` (main.c:178), which `main` reaches at
  main.c:110 on the board that `board_placeShips` filled at main.c:108.

Unlike a full Battleship game, the program lacks several features, and the
model follows the code:

- The code does not deduplicate repeated attacks.
- It counts no hits on ships and never sinks a ship.
- It has no AI targeting.
- It does not validate attack coordinates.
- Its lookup has no NULL check, so a partial fleet can make it fault.
- Fleet placement retries without any bound.

## Model

| member | source | states |
|---|---|---|
| `Geometry.IsWithin` | main.c:276-281 | For `a <= b`, true iff `a <= n <= b`. For `a > b`, the faulty swap leaves only `n == a` accepted. |
| `Geometry.ReversedRangeRejectsInterior` | main.c:276-281 | Consequence of the swap defect: for `b <= n < a` the range test on (a, b) rejects `n`, although `n` lies between the bounds. |
| `Geometry.PointOnSegment` | main.c:267-274 | A point reported on a segment shares x with both endpoints or shares y with both, so the segment is axis-aligned. |
| `Geometry.StartOnSegment` | main.c:267-274 | Endpoint `a` of any segment whose endpoints share x or share y is on that segment, in either endpoint order. |
| `Geometry.ReversedSegmentMissesEnd` | main.c:267-281 | On every axis-aligned segment whose start is past its end, the start is reported on it but the end is not. |
| `Geometry.OnSegmentIffInBox` | main.c:267-274 | On an ordered, axis-aligned segment, the test holds exactly for the segment's cells. |
| `Geometry.LinesIntersect` | main.c:242-265 | The walk over the first segment's column (if its endpoints share x) or its row finds a cell on the second segment. A first segment whose start is past its end gives false. A true result implies the second segment is axis-aligned. |
| `Geometry.LineIntersectsLine` | main.c:242-265 | The cell-by-cell loop with early return computes exactly `LinesIntersect`. |
| `Geometry.IntersectIffShareCell` | main.c:242-265 | For two ordered, axis-aligned segments, the walk reports a crossing iff the segments share a cell. |
| `Geometry.IntersectSymmetric` | main.c:242-265 | For ordered, axis-aligned segments, the result does not depend on which segment is walked. |
| `Boards.Candidate` | main.c:198-205 | The ship one attempt proposes for span `s` (1..5) is straight, has start ≤ end, has both ends on the 10×10 grid, has end minus start equal to `s`, and is not sunk. |
| `Boards.ShipAtFrom` | main.c:231-240 | None iff no ship covers the point. Otherwise it is the lowest-index ship that covers the point. |
| `Boards.ShipAtIffOnSomeShip` | main.c:231-240 | On a board of well-placed ships, the lookup succeeds iff the point is a cell of some ship. |
| `Boards.EmptyBoardAcceptsAll` | main.c:218-229 | With every slot empty, as `board_create` leaves it, every candidate is accepted. |
| `Boards.CanPlaceIffNoSharedCell` | main.c:218-229 | For well-placed ships and candidate, the check accepts iff no filled slot's ship shares a cell with the candidate. |
| `Boards.PlacedFleetDisjoint` | main.c:194-216 | Ships accepted one after the other by the collision check never share a cell. |
| `Boards.Board.constructor` | main.c:143-151 | The board has five slots, all empty. |
| `Boards.Board.CanPlaceShip` | main.c:218-229 | The slot loop returns true exactly when no filled slot's segment meets the candidate (`CanPlace`). |
| `Boards.Board.ShipAt` | main.c:231-240 | Requires all five slots to be filled. Returns the lowest-index covering ship, or None (`ShipAtFrom`). |
| `Boards.PlaceFrom` | main.c:194-216 | Each roll's candidate for the current span is stored in the next slot iff the collision check accepts it; otherwise the next roll retries the same span. Placement stops after five ships or when the rolls run out. At least `i` and at most five ships are placed, and fewer than five only when every roll was used. |
| `Boards.PlaceFromProps` | main.c:194-216 | Placement keeps the slots already filled and leaves the slots after the last placed ship untouched. Every placed ship is straight, ordered, on the grid and not sunk, with end minus start equal to 5, 4, 3, 2, 1 for slots 0..4, and each has passed the collision check against all earlier ships and all untouched slots. |
| `Boards.FirstRollPlacedOnEmptyBoard` | main.c:194-216 | On an empty board the first roll is always accepted, and its candidate of span 5 fills slot 0. |
| `Boards.Board.PlaceShips` | main.c:194-216 | The loop's final slots, ship count and roll count are exactly `PlaceFrom` from slot 0 and roll 0 of the old slots. So the guarantees of `PlaceFromProps` hold: slots filled in order with spans 5..1, ships well placed and not sunk, pairs checked, later slots unchanged, and fewer than five ships only when the rolls run out. |
| `Players.FirstEmptyFrom` | main.c:183-189 | Returns the lowest empty slot at or after `from`, with all earlier slots filled. None means every such slot is filled. |
| `Players.RecordWritesFirstEmpty` | main.c:183-189 | Recording writes the attack into the first empty slot and leaves every other slot as it was. |
| `Players.RecordFullLog` | main.c:183-189 | When all slots are filled, the log is unchanged. |
| `Players.RecordKeepsPrefix` | main.c:183-189 | If the filled slots form a prefix, they still do after recording. |
| `Players.RecordAppends` | main.c:183-189 | On a prefix-shaped log with room, the recorded entries become the old entries followed by the new attack. |
| `Players.RepeatedAttackRecordedTwice` | main.c:177-189 | Attacking the same point twice adds two entries. Points are not deduplicated. |
| `Players.Player.constructor` | main.c:130-141 | A fresh empty board and 100 empty attack slots, with no entries. |
| `Players.Player.AttackPlayer` | main.c:177-192 | HIT iff the defender's `board_shipAt` finds a ship. The log becomes `Record(old log, attack)`, so one entry is appended unless all 100 slots are full, in which case the log is unchanged. The prefix shape is kept and the defender's ships are unchanged. |

## Left out

- `main` (main.c:104-113) is left out. It seeds the random generator from the clock and makes one demo call, which is process start-up.
- `game_init` and the `Game` pair (main.c:69-74, 121-128) are left out. They only pair two players under fixed display names.
- The player name and its `strcpy` into `name[30]` (main.c:133) are cosmetic string copying. `Player` has no name field.
- `displayBoard` (main.c:92) is declared but never defined.
- `rand()` is an injected input. Each placement attempt takes one `Roll` of three non-negative draws (column, row, orientation). The model does not fix which of the two coordinate draws C evaluates first, because the order of function arguments is unspecified in C.
- Boards.Board.PlaceShips: the C loop retries without bound. The model consumes a finite sequence of rolls and stops when it is exhausted, with fewer than five ships if need be. A run that never succeeds is not modelled.
- Boards.Board.ShipAt: requires all five slots to be filled. The C lookup also succeeds on a partial fleet when a covering ship comes before the first NULL slot. The model does not capture that case, which no call site reaches.
- `malloc`/`free`, pointer identity and aliasing are not modelled. These include the per-cell `point_create`/`free` in the segment walk, the points leaked by a rejected placement, and an attack aliasing the caller's point. `ShipAt` returns a ship value, so two identical ships in different slots cannot be told apart.
- C `int` is 32 bits. The model's integers are unbounded. Coordinates from placement stay within 0..9, so no overflow arises there. For arbitrary inputs, a walk whose end coordinate is `INT_MAX` would overflow in C and has no counterpart here.
