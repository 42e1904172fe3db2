/**
 * The four-seat circular table of game.js: which seats are occupied and
 * active, how many are active, the last active seat, the seat a newcomer
 * takes, and the left/right neighbour search.
 *
 * A seat's name list is a `seq<string>` that may be shorter than the table;
 * the empty string stands for JavaScript's falsy entries (a hole, `undefined`
 * or ""), so seat `i` is occupied exactly when `i < |players|` and its name
 * is not "". The flag lists are the source's fixed arrays of four.
 */
module Table {

  const SeatCount: nat := 4
  const StartingChips: nat := 3

  /** `players[i]` is truthy. */
  predicate IsOccupied(players: seq<string>, i: int) {
    0 <= i < |players| && players[i] != ""
  }

  /** `players[i] && !eliminated[i]`: the seat takes part in the game. */
  predicate IsActive(players: seq<string>, eliminated: seq<bool>, i: int) {
    IsOccupied(players, i) && i < |eliminated| && !eliminated[i]
  }

  ghost function ActiveSeats(players: seq<string>, eliminated: seq<bool>): set<int> {
    set i | 0 <= i < |players| && IsActive(players, eliminated, i)
  }

  /** Number of active seats among the first `k` entries of `players`; it
      is zero exactly when none of them is active. */
  function CountActiveBelow(players: seq<string>, eliminated: seq<bool>, k: nat): (n: nat)
    requires k <= |players|
    ensures n <= k
    ensures n == 0 <==> forall i :: 0 <= i < k ==> !IsActive(players, eliminated, i)
  {
    if k == 0 then 0
    else CountActiveBelow(players, eliminated, k - 1) + (if IsActive(players, eliminated, k - 1) then 1 else 0)
  }

  /** `activePlayerCount()`: how many seats are occupied and not
      eliminated. It is never more than the length of the name list, and it
      is zero exactly when no seat is active. */
  function ActiveCount(players: seq<string>, eliminated: seq<bool>): (n: nat)
    ensures n <= |players|
    ensures n == 0 <==> forall i :: !IsActive(players, eliminated, i)
  {
    CountActiveBelow(players, eliminated, |players|)
  }

  lemma {:induction false} CountActiveBelowIsCardinality(players: seq<string>, eliminated: seq<bool>, k: nat)
    requires k <= |players|
    ensures CountActiveBelow(players, eliminated, k) == |set i | 0 <= i < k && IsActive(players, eliminated, i)|
  {
    var below := set i | 0 <= i < k && IsActive(players, eliminated, i);
    if k > 0 {
      CountActiveBelowIsCardinality(players, eliminated, k - 1);
      var prev := set i | 0 <= i < k - 1 && IsActive(players, eliminated, i);
      if IsActive(players, eliminated, k - 1) {
        assert below == prev + {k - 1};
      } else {
        assert below == prev;
      }
    } else {
      assert below == {};
    }
  }

  /** The active-seat count is the size of the set of seats that are
      occupied and not eliminated, and at most the length of the name list. */
  lemma ActiveCountIsCardinality(players: seq<string>, eliminated: seq<bool>)
    ensures ActiveCount(players, eliminated) == |ActiveSeats(players, eliminated)|
    ensures ActiveCount(players, eliminated) <= |players|
  {
    CountActiveBelowIsCardinality(players, eliminated, |players|);
  }

  /** `getLastActivePlayerIndex(exclude)` restricted to the first `k` seats:
      the `forEach` keeps overwriting its local, so the answer is the highest
      qualifying index, or -1 when there is none. */
  function LastActiveBelow(players: seq<string>, eliminated: seq<bool>, exclude: int, k: nat): (r: int)
    requires k <= |players|
    ensures -1 <= r < k
    ensures r == -1 <==> forall i :: 0 <= i < k ==> !(IsActive(players, eliminated, i) && i != exclude)
    ensures r != -1 ==> IsActive(players, eliminated, r) && r != exclude
    ensures forall i :: r < i < k ==> !(IsActive(players, eliminated, i) && i != exclude)
  {
    if k == 0 then -1
    else if IsActive(players, eliminated, k - 1) && k - 1 != exclude then k - 1
    else LastActiveBelow(players, eliminated, exclude, k - 1)
  }

  /** `getLastActivePlayerIndex(exclude)`: -1 exactly when no seat other than
      `exclude` is active, otherwise the highest such seat. */
  function LastActiveIndex(players: seq<string>, eliminated: seq<bool>, exclude: int): (r: int)
    ensures -1 <= r < |players|
    ensures r == -1 <==> forall i :: !(IsActive(players, eliminated, i) && i != exclude)
    ensures r != -1 ==> IsActive(players, eliminated, r) && r != exclude
    ensures forall i :: r < i ==> !(IsActive(players, eliminated, i) && i != exclude)
  {
    LastActiveBelow(players, eliminated, exclude, |players|)
  }

  /** With exactly two active seats and `seat` one of them, the last active
      seat other than `seat` exists, is active, and is the only active seat
      besides `seat`. */
  lemma TwoActiveOther(players: seq<string>, eliminated: seq<bool>, seat: int)
    requires ActiveCount(players, eliminated) == 2
    requires IsActive(players, eliminated, seat)
    ensures var w := LastActiveIndex(players, eliminated, seat);
      w != -1 && w != seat && IsActive(players, eliminated, w) &&
      forall i :: IsActive(players, eliminated, i) ==> i == seat || i == w
  {
    var w := LastActiveIndex(players, eliminated, seat);
    var s := ActiveSeats(players, eliminated);
    ActiveCountIsCardinality(players, eliminated);
    assert seat in s;
    var rest := s - {seat};
    assert |rest| == 1;
    var o :| o in rest;
    assert |rest - {o}| == 0;
    assert rest == {o} by {
      forall x | x in rest ensures x == o {
        assert x !in rest - {o};
      }
    }
    assert IsActive(players, eliminated, o) && o != seat;
    assert w != -1;
    assert w in rest;
    forall i | IsActive(players, eliminated, i) ensures i == seat || i == w {
      assert i in s;
      if i != seat { assert i in rest; }
    }
  }

  // ---------------------------------------------------------------------
  // Seat choice on join

  /** The join handler's search for a falsy name, from index `k` on: the first empty
      entry at or after `k`, or -1 when there is none. */
  function FindEmptyFrom(players: seq<string>, k: nat): (r: int)
    requires k <= |players|
    ensures r == -1 || k <= r < |players|
    ensures r != -1 ==> players[r] == ""
    ensures forall i :: k <= i < |players| && (r == -1 || i < r) ==> players[i] != ""
    decreases |players| - k
  {
    if k == |players| then -1
    else if players[k] == "" then k
    else FindEmptyFrom(players, k + 1)
  }

  function FindEmpty(players: seq<string>): int {
    FindEmptyFrom(players, 0)
  }

  /** The seat a newcomer takes: the first empty seat, or the one just past
      the named seats when there is no empty one; it is unoccupied and every
      seat before it is occupied. */
  function ChooseSeat(players: seq<string>): (s: nat)
    ensures s <= |players|
    ensures !IsOccupied(players, s)
    ensures forall i :: 0 <= i < s ==> IsOccupied(players, i)
  {
    var r := FindEmpty(players);
    if r == -1 then |players| else r
  }

  /** The join handler's write of the name: overwrite the entry, or append when `seat`
      is just past the end. */
  function PlaceName(players: seq<string>, seat: nat, name: string): (r: seq<string>)
    requires seat <= |players|
    ensures |r| == if seat < |players| then |players| else |players| + 1
    ensures r[seat] == name
    ensures forall i :: 0 <= i < |players| && i != seat ==> r[i] == players[i]
  {
    if seat < |players| then players[seat := name] else players + [name]
  }

  /** Seating a non-empty name in a free seat and clearing that seat's
      elimination flag adds exactly one active seat. */
  lemma {:induction false} JoinAddsOneActive(players: seq<string>, eliminated: seq<bool>, seat: nat, name: string)
    requires seat <= |players| && !IsOccupied(players, seat)
    requires seat < |eliminated| && name != ""
    ensures ActiveCount(PlaceName(players, seat, name), eliminated[seat := false]) == ActiveCount(players, eliminated) + 1
  {
    var p2 := PlaceName(players, seat, name);
    var e2 := eliminated[seat := false];
    ActiveCountIsCardinality(players, eliminated);
    ActiveCountIsCardinality(p2, e2);
    var before := ActiveSeats(players, eliminated);
    var after := ActiveSeats(p2, e2);
    assert seat !in before;
    assert after == before + {seat} by {
      forall i | i in after ensures i in before + {seat} {
        if i != seat { assert IsActive(players, eliminated, i); }
      }
      forall i | i in before + {seat} ensures i in after {
        if i != seat { assert IsActive(p2, e2, i); }
      }
    }
  }

  // ---------------------------------------------------------------------
  // Neighbour search

  /** `getLeftSeatIndex` steps `+1 mod 4`, `getRightSeatIndex` steps `-1 mod 4`. */
  datatype Direction = Leftward | Rightward

  function Step(d: Direction, idx: int): int {
    match d
    case Leftward => (idx + 1) % 4
    case Rightward => (idx - 1 + 4) % 4
  }

  /** Number of `+1` steps from `from` to reach `to`, in 1..4; a seat is
      reached from itself only after a full lap. */
  function ClockwiseDistance(from: int, to: int): (n: int)
    requires 0 <= from < SeatCount && 0 <= to < SeatCount
    ensures 1 <= n <= 4
  {
    if from < to then to - from else to - from + 4
  }

  /** Walking `k` seats clockwise from `from` lands on the one seat at
      clockwise distance `k`. */
  lemma ClockwiseWalk(from: int, k: int, i: int)
    requires 0 <= from < SeatCount && 1 <= k <= 4 && 0 <= i < SeatCount
    ensures 0 <= (from + k) % 4 < SeatCount && ClockwiseDistance(from, (from + k) % 4) == k
    ensures ClockwiseDistance(from, i) == k <==> i == (from + k) % 4
  {
  }

  /** Number of steps in direction `d` from `from` to reach `to`. */
  function Distance(d: Direction, from: int, to: int): (n: int)
    requires 0 <= from < SeatCount && 0 <= to < SeatCount
    ensures 1 <= n <= 4
  {
    match d
    case Leftward => ClockwiseDistance(from, to)
    case Rightward => ClockwiseDistance(to, from)
  }

  /** Distinct seats lie at distinct distances. */
  lemma DistanceInjective(d: Direction, from: int, a: int, b: int)
    requires 0 <= from < 4 && 0 <= a < 4 && 0 <= b < 4
    requires Distance(d, from, a) == Distance(d, from, b)
    ensures a == b
  {
  }

  /** The loop body of the neighbour search from probe `i` on, with `idx`
      the last probed seat; `seat` is the fallback after four probes. */
  function SearchFrom(players: seq<string>, eliminated: seq<bool>, seat: int, d: Direction, idx: int, i: nat): (r: int)
    requires i <= 4
    ensures r == seat || (0 <= r < SeatCount && IsActive(players, eliminated, r))
    decreases 4 - i
  {
    if i == 4 then seat
    else
      var next := Step(d, idx);
      if IsActive(players, eliminated, next) then next
      else SearchFrom(players, eliminated, seat, d, next, i + 1)
  }

  /** `getLeftSeatIndex(seat)` (direction `Leftward`) or
      `getRightSeatIndex(seat)` (`Rightward`): an active seat, or `seat`
      itself. */
  function Neighbour(players: seq<string>, eliminated: seq<bool>, seat: int, d: Direction): (r: int)
    ensures r == seat || (0 <= r < SeatCount && IsActive(players, eliminated, r))
  {
    SearchFrom(players, eliminated, seat, d, seat, 0)
  }

  /** Probe `i` done and nothing found: the unprobed seats are exactly those
      at distance more than `i`. */
  lemma {:induction false} SearchFromIsNearest(players: seq<string>, eliminated: seq<bool>, seat: int, d: Direction, idx: int, i: nat)
    requires 0 <= seat < 4 && 0 <= idx < 4 && i <= 4
    requires i == 0 ==> idx == seat
    requires i > 0 ==> Distance(d, seat, idx) == i
    requires forall j :: 0 <= j < 4 && Distance(d, seat, j) <= i ==> !IsActive(players, eliminated, j)
    ensures var r := SearchFrom(players, eliminated, seat, d, idx, i);
      0 <= r < 4 &&
      (r == seat || IsActive(players, eliminated, r)) &&
      (IsActive(players, eliminated, r) ==>
        forall j :: 0 <= j < 4 && IsActive(players, eliminated, j) ==> Distance(d, seat, r) <= Distance(d, seat, j)) &&
      (!IsActive(players, eliminated, r) ==> forall j :: 0 <= j < 4 ==> !IsActive(players, eliminated, j))
    decreases 4 - i
  {
    if i < 4 {
      var next := Step(d, idx);
      DistanceStepFromSeat(d, seat, idx);
      assert Distance(d, seat, next) == i + 1;
      if !IsActive(players, eliminated, next) {
        forall j | 0 <= j < 4 && Distance(d, seat, j) <= i + 1 ensures !IsActive(players, eliminated, j) {
          if Distance(d, seat, j) == i + 1 {
            DistanceInjective(d, seat, j, next);
          }
        }
        SearchFromIsNearest(players, eliminated, seat, d, next, i + 1);
      }
    }
  }

  /** One more step adds one to the distance from `seat` (before the lap closes). */
  lemma DistanceStepFromSeat(d: Direction, seat: int, idx: int)
    requires 0 <= seat < 4 && 0 <= idx < 4
    ensures 0 <= Step(d, idx) < 4
    ensures idx == seat ==> Distance(d, seat, Step(d, idx)) == 1
    ensures idx != seat ==> Distance(d, seat, Step(d, idx)) == Distance(d, seat, idx) + 1
  {
  }

  /** `getLeftSeatIndex` / `getRightSeatIndex`: the result is always a seat
      index; when some seat is active it is the active seat nearest to `seat`
      in direction `d` (so no active seat is skipped, and `seat` itself
      comes last), and when none is it is `seat`. */
  lemma NeighbourIsNearest(players: seq<string>, eliminated: seq<bool>, seat: int, d: Direction)
    requires 0 <= seat < 4
    ensures var r := Neighbour(players, eliminated, seat, d);
      0 <= r < 4 &&
      ((exists j :: 0 <= j < 4 && IsActive(players, eliminated, j)) ==>
        IsActive(players, eliminated, r) &&
        forall j :: 0 <= j < 4 && IsActive(players, eliminated, j) ==> Distance(d, seat, r) <= Distance(d, seat, j)) &&
      ((forall j :: 0 <= j < 4 ==> !IsActive(players, eliminated, j)) ==> r == seat)
  {
    SearchFromIsNearest(players, eliminated, seat, d, seat, 0);
  }

  /** Stepping left from an active seat and then right from where that lands
      comes back to the start: the two lookups are mirror images. */
  lemma NeighboursAreMirrored(players: seq<string>, eliminated: seq<bool>, seat: int)
    requires 0 <= seat < 4 && IsActive(players, eliminated, seat)
    ensures Neighbour(players, eliminated, Neighbour(players, eliminated, seat, Leftward), Rightward) == seat
  {
    var l := Neighbour(players, eliminated, seat, Leftward);
    NeighbourIsNearest(players, eliminated, seat, Leftward);
    NeighbourIsNearest(players, eliminated, l, Rightward);
    var r := Neighbour(players, eliminated, l, Rightward);
    assert Distance(Rightward, l, r) <= Distance(Rightward, l, seat);
    assert Distance(Leftward, seat, l) <= Distance(Leftward, seat, r);
    DistanceLapLemma(seat, l, r);
  }

  /** Clockwise distances around one lap: if `l` is no farther from `s` than
      `r`, and `r` no farther back from `l` than `s`, then `r` is `s`. */
  lemma DistanceLapLemma(s: int, l: int, r: int)
    requires 0 <= s < 4 && 0 <= l < 4 && 0 <= r < 4
    requires ClockwiseDistance(s, l) <= ClockwiseDistance(s, r)
    requires ClockwiseDistance(r, l) <= ClockwiseDistance(s, l)
    ensures r == s
  {
  }
}
