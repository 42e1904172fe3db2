/**
 * Turn advancement of game.js (`nextTurn`) and the two-player win check
 * shared by the roll handler's skip branch and `handleEndOfTurn`, stated as
 * functions over the seat lists so that lemmas can speak about them.
 */
module Turns {
  import opened Table

  datatype Option<T> = None | Some(value: T)

  /** `nextTurn` gives up after this many probes. */
  const ProbeLimit: nat := 10

  /** What a run of the `nextTurn` loop leaves behind: the flag lists, the
      last probed seat (which becomes `currentPlayer`) and whether the loop
      ended by `break`. */
  datatype ScanResult = ScanResult(eliminated: seq<bool>, danger: seq<bool>, next: int, found: bool)

  /** The seat the scan stops at: active and holding chips. */
  predicate CanTakeTurn(players: seq<string>, chips: seq<nat>, eliminated: seq<bool>, i: int): (b: bool)
    ensures b ==> i in ActiveSeats(players, eliminated) && 0 <= i < |chips| && chips[i] > 0
  {
    IsActive(players, eliminated, i) && i < |chips| && chips[i] > 0
  }

  /** The flag lists a probe of seat `n` leaves when `n` does not stop the
      loop: an empty or eliminated seat is skipped untouched, a zero-chip
      seat already in danger is eliminated, one not yet in danger is put in
      danger. */
  function ProbeFlags(players: seq<string>, eliminated: seq<bool>, danger: seq<bool>, n: int): (f: (seq<bool>, seq<bool>))
    requires 0 <= n < |eliminated| == |danger|
    ensures |f.0| == |eliminated| && |f.1| == |danger|
    ensures forall i :: 0 <= i < |eliminated| && i != n ==> f.0[i] == eliminated[i] && f.1[i] == danger[i]
    ensures f.0[n] == (eliminated[n] || (IsActive(players, eliminated, n) && danger[n]))
    ensures f.1[n] == (danger[n] || IsActive(players, eliminated, n))
  {
    if IsOccupied(players, n) && !eliminated[n] then
      if danger[n] then (eliminated[n := true], danger) else (eliminated, danger[n := true])
    else (eliminated, danger)
  }

  /** The `while (attempts < 10)` loop of `nextTurn` from the given loop
      state on: each probe moves one seat clockwise and breaks on a seat that
      can take a turn; any other seat is passed over with the flags
      `ProbeFlags` leaves. */
  function Scan(players: seq<string>, chips: seq<nat>, eliminated: seq<bool>, danger: seq<bool>,
                next: int, attempts: nat): (r: ScanResult)
    requires |chips| == SeatCount && |eliminated| == SeatCount && |danger| == SeatCount
    requires attempts <= ProbeLimit
    ensures |r.eliminated| == SeatCount && |r.danger| == SeatCount
    decreases ProbeLimit - attempts
  {
    if attempts == ProbeLimit then ScanResult(eliminated, danger, next, false)
    else
      var n := (next + 1) % 4;
      if CanTakeTurn(players, chips, eliminated, n) then ScanResult(eliminated, danger, n, true)
      else
        var f := ProbeFlags(players, eliminated, danger, n);
        Scan(players, chips, f.0, f.1, n, attempts + 1)
  }

  /** One probe of the loop, branch by branch as `nextTurn` writes it. */
  lemma ScanStep(players: seq<string>, chips: seq<nat>, eliminated: seq<bool>, danger: seq<bool>,
                 next: int, attempts: nat)
    requires |chips| == SeatCount && |eliminated| == SeatCount && |danger| == SeatCount
    requires 0 <= next < SeatCount && attempts < ProbeLimit
    ensures var n := (next + 1) % 4;
      0 <= n < SeatCount &&
      Scan(players, chips, eliminated, danger, next, attempts) ==
        if !IsOccupied(players, n) || eliminated[n] then Scan(players, chips, eliminated, danger, n, attempts + 1)
        else if chips[n] > 0 then ScanResult(eliminated, danger, n, true)
        else if danger[n] then Scan(players, chips, eliminated[n := true], danger, n, attempts + 1)
        else Scan(players, chips, eliminated, danger[n := true], n, attempts + 1)
  {
    var n := (next + 1) % 4;
    if IsOccupied(players, n) && !eliminated[n] && chips[n] == 0 {
      var f := ProbeFlags(players, eliminated, danger, n);
      if danger[n] {
        assert f.0 == eliminated[n := true] && f.1 == danger;
      } else {
        assert f.0 == eliminated && f.1 == danger[n := true];
      }
    }
  }

  /** The loop never un-eliminates a seat or clears a danger flag, eliminates
      only occupied zero-chip seats, never changes which seats can take a
      turn, and when it breaks it stands on such a seat. */
  lemma {:induction false} ScanFrame(players: seq<string>, chips: seq<nat>, eliminated: seq<bool>, danger: seq<bool>,
                                     next: int, attempts: nat)
    requires |chips| == SeatCount && |eliminated| == SeatCount && |danger| == SeatCount
    requires attempts <= ProbeLimit
    ensures var r := Scan(players, chips, eliminated, danger, next, attempts);
      |r.eliminated| == SeatCount && |r.danger| == SeatCount &&
      (attempts < ProbeLimit ==> 0 <= r.next < SeatCount) &&
      (forall i :: 0 <= i < SeatCount && eliminated[i] ==> r.eliminated[i]) &&
      (forall i :: 0 <= i < SeatCount && danger[i] ==> r.danger[i]) &&
      (forall i :: 0 <= i < SeatCount && r.eliminated[i] && !eliminated[i] ==> IsOccupied(players, i) && chips[i] == 0) &&
      (forall i :: CanTakeTurn(players, chips, eliminated, i) <==> CanTakeTurn(players, chips, r.eliminated, i)) &&
      (r.found ==> CanTakeTurn(players, chips, r.eliminated, r.next))
    decreases ProbeLimit - attempts
  {
    if attempts < ProbeLimit {
      var n := (next + 1) % 4;
      if !CanTakeTurn(players, chips, eliminated, n) {
        var f := ProbeFlags(players, eliminated, danger, n);
        forall i ensures CanTakeTurn(players, chips, eliminated, i) <==> CanTakeTurn(players, chips, f.0, i) {
          if 0 <= i < SeatCount && i != n {
            assert f.0[i] == eliminated[i];
          }
        }
        ScanFrame(players, chips, f.0, f.1, n, attempts + 1);
      }
    }
  }

  /** Moving the origin one step clockwise takes one off every other seat's
      distance and puts the old neighbour a full lap away. */
  lemma OriginStep(from: int, i: int)
    requires 0 <= from < SeatCount && 0 <= i < SeatCount
    ensures 0 <= (from + 1) % 4 < SeatCount
    ensures ClockwiseDistance(from, i) == 1 <==> i == (from + 1) % 4
    ensures i == (from + 1) % 4 ==> ClockwiseDistance((from + 1) % 4, i) == 4
    ensures i != (from + 1) % 4 ==> ClockwiseDistance((from + 1) % 4, i) == ClockwiseDistance(from, i) - 1
  {
    if from == 3 {
      assert (from + 1) % 4 == 0;
    } else {
      assert (from + 1) % 4 == from + 1;
    }
  }

  /** The seat `k` clockwise steps after `from`, one step at a time as the
      loop of `nextTurn` advances `next`. */
  function SeatAfter(from: int, k: nat): (s: int)
    requires 0 <= from < SeatCount
    ensures 0 <= s < SeatCount
    decreases k
  {
    if k == 0 then from else SeatAfter(if from == SeatCount - 1 then 0 else from + 1, k - 1)
  }

  /** `k` single steps around the table land where `(from + k) % 4` does. */
  lemma {:induction false} SeatAfterIsModular(from: int, k: nat)
    requires 0 <= from < SeatCount
    ensures SeatAfter(from, k) == (from + k) % 4
    decreases k
  {
    if k > 0 {
      if from == 3 {
        SeatAfterIsModular(0, k - 1);
        assert (k - 1) % 4 == (k + 3) % 4;
      } else {
        SeatAfterIsModular(from + 1, k - 1);
      }
    }
  }

  /** Ten probes around four seats end two seats on. */
  lemma TenSeatsOn(from: int)
    requires 0 <= from < SeatCount
    ensures SeatAfter(from, ProbeLimit) == (from + 2) % 4
  {
    if from == 0 {
      assert SeatAfter(0, ProbeLimit) == 2;
    } else if from == 1 {
      assert SeatAfter(1, ProbeLimit) == 3;
    } else if from == 2 {
      assert SeatAfter(2, ProbeLimit) == 0;
    } else {
      assert SeatAfter(3, ProbeLimit) == 1;
    }
  }

  /** No seat can take a turn. */
  predicate NoneCanTakeTurn(players: seq<string>, chips: seq<nat>, eliminated: seq<bool>) {
    forall i :: 0 <= i < SeatCount ==> !CanTakeTurn(players, chips, eliminated, i)
  }

  /** No seat closer than `k` clockwise from `from` can take a turn. */
  predicate NoneCloser(players: seq<string>, chips: seq<nat>, eliminated: seq<bool>, from: int, k: int)
    requires 0 <= from < SeatCount
  {
    forall i :: 0 <= i < SeatCount && ClockwiseDistance(from, i) < k ==> !CanTakeTurn(players, chips, eliminated, i)
  }

  /** A probe that does not stop the loop continues it with the flags
      `ProbeFlags` gives, and eliminating seats never lets a new seat take a
      turn. */
  lemma ProbeContinues(players: seq<string>, chips: seq<nat>, eliminated: seq<bool>, danger: seq<bool>,
                       next: int, attempts: nat)
    requires |chips| == SeatCount && |eliminated| == SeatCount && |danger| == SeatCount
    requires 0 <= next < SeatCount && attempts < ProbeLimit
    requires !CanTakeTurn(players, chips, eliminated, (next + 1) % 4)
    ensures var n := (next + 1) % 4;
      var f := ProbeFlags(players, eliminated, danger, n);
      Scan(players, chips, eliminated, danger, next, attempts) == Scan(players, chips, f.0, f.1, n, attempts + 1) &&
      forall i :: CanTakeTurn(players, chips, f.0, i) ==> CanTakeTurn(players, chips, eliminated, i)
  {
  }

  /** A probe of a seat before the nearest seat `q` that can take a turn
      does not stop the loop, and leaves `q` the nearest such seat from the
      probed one. */
  lemma ProbeBeforeNearest(players: seq<string>, chips: seq<nat>, eliminated: seq<bool>, danger: seq<bool>,
                           next: int, attempts: nat, q: int)
    requires |chips| == SeatCount && |eliminated| == SeatCount && |danger| == SeatCount
    requires 0 <= next < SeatCount && 0 <= q < SeatCount && attempts < ProbeLimit
    requires (next + 1) % 4 != q
    requires CanTakeTurn(players, chips, eliminated, q)
    requires NoneCloser(players, chips, eliminated, next, ClockwiseDistance(next, q))
    ensures var n := (next + 1) % 4;
      var f := ProbeFlags(players, eliminated, danger, n);
      0 <= n < SeatCount && !CanTakeTurn(players, chips, eliminated, n) &&
      Scan(players, chips, eliminated, danger, next, attempts) == Scan(players, chips, f.0, f.1, n, attempts + 1) &&
      ClockwiseDistance(n, q) == ClockwiseDistance(next, q) - 1 &&
      CanTakeTurn(players, chips, f.0, q) &&
      NoneCloser(players, chips, f.0, n, ClockwiseDistance(n, q))
  {
    var n := (next + 1) % 4;
    OriginStep(next, q);
    OriginStep(next, n);
    assert !CanTakeTurn(players, chips, eliminated, n);
    ProbeContinues(players, chips, eliminated, danger, next, attempts);
    var f := ProbeFlags(players, eliminated, danger, n);
    assert f.0[q] == eliminated[q];
    forall j | 0 <= j < SeatCount && ClockwiseDistance(n, j) < ClockwiseDistance(n, q)
      ensures !CanTakeTurn(players, chips, f.0, j)
    {
      OriginStep(next, j);
    }
  }

  /** Probing seat `n`, the seat after `next`, before reaching `q` turns
      the window of seats "closer than `q`" seen from `next` into the one
      seen from `n`: the flags `ProbeFlags` leaves, with the window from `n`,
      give the same per-seat outcome as the old flags with the window from
      `next`. */
  lemma ProbeShiftsWindow(players: seq<string>, eliminated: seq<bool>, danger: seq<bool>, next: int, q: int, i: int)
    requires |eliminated| == SeatCount && |danger| == SeatCount
    requires 0 <= next < SeatCount && 0 <= q < SeatCount && 0 <= i < SeatCount
    requires (next + 1) % 4 != q
    ensures var n := (next + 1) % 4;
      var f := ProbeFlags(players, eliminated, danger, n);
      0 <= n < SeatCount &&
      (f.0[i] || (ClockwiseDistance(n, i) < ClockwiseDistance(n, q) && IsActive(players, f.0, i) && f.1[i])) ==
        (eliminated[i] || (ClockwiseDistance(next, i) < ClockwiseDistance(next, q) && IsActive(players, eliminated, i) && danger[i])) &&
      (f.1[i] || (ClockwiseDistance(n, i) < ClockwiseDistance(n, q) && IsActive(players, f.0, i))) ==
        (danger[i] || (ClockwiseDistance(next, i) < ClockwiseDistance(next, q) && IsActive(players, eliminated, i)))
  {
    var n := (next + 1) % 4;
    OriginStep(next, q);
    OriginStep(next, i);
    var f := ProbeFlags(players, eliminated, danger, n);
    if i != n {
      assert f.0[i] == eliminated[i] && f.1[i] == danger[i];
      assert IsActive(players, f.0, i) == IsActive(players, eliminated, i);
    }
  }

  /** Where `ScanStopsAtNearest` ends: it breaks at `q`. */
  lemma {:induction false} ScanStopsAtNearestEnd(players: seq<string>, chips: seq<nat>, eliminated: seq<bool>, danger: seq<bool>,
                                                 next: int, attempts: nat, q: int)
    requires |chips| == SeatCount && |eliminated| == SeatCount && |danger| == SeatCount
    requires 0 <= next < SeatCount && 0 <= q < SeatCount
    requires attempts + ClockwiseDistance(next, q) <= ProbeLimit
    requires CanTakeTurn(players, chips, eliminated, q)
    requires NoneCloser(players, chips, eliminated, next, ClockwiseDistance(next, q))
    ensures Scan(players, chips, eliminated, danger, next, attempts).found
    ensures Scan(players, chips, eliminated, danger, next, attempts).next == q
    decreases ProbeLimit - attempts
  {
    var n := (next + 1) % 4;
    OriginStep(next, q);
    if n != q {
      ProbeBeforeNearest(players, chips, eliminated, danger, next, attempts, q);
      var f := ProbeFlags(players, eliminated, danger, n);
      ScanStopsAtNearestEnd(players, chips, f.0, f.1, n, attempts + 1, q);
    }
  }

  /** Per-seat form of the eliminations `ScanStopsAtNearest` makes. */
  lemma {:induction false} ScanStopsAtNearestEliminated(players: seq<string>, chips: seq<nat>, eliminated: seq<bool>, danger: seq<bool>,
                                                  next: int, attempts: nat, q: int, i: int)
    requires |chips| == SeatCount && |eliminated| == SeatCount && |danger| == SeatCount
    requires 0 <= next < SeatCount && 0 <= q < SeatCount && 0 <= i < SeatCount
    requires attempts + ClockwiseDistance(next, q) <= ProbeLimit
    requires CanTakeTurn(players, chips, eliminated, q)
    requires NoneCloser(players, chips, eliminated, next, ClockwiseDistance(next, q))
    ensures Scan(players, chips, eliminated, danger, next, attempts).eliminated[i] ==
      (eliminated[i] || (ClockwiseDistance(next, i) < ClockwiseDistance(next, q) && IsActive(players, eliminated, i) && danger[i]))
    decreases ProbeLimit - attempts
  {
    var n := (next + 1) % 4;
    OriginStep(next, q);
    if n != q {
      ProbeBeforeNearest(players, chips, eliminated, danger, next, attempts, q);
      var f := ProbeFlags(players, eliminated, danger, n);
      ScanStopsAtNearestEliminated(players, chips, f.0, f.1, n, attempts + 1, q, i);
      ProbeShiftsWindow(players, eliminated, danger, next, q, i);
    }
  }

  /** Per-seat form of the danger flags `ScanStopsAtNearest` sets. */
  lemma {:induction false} ScanStopsAtNearestDanger(players: seq<string>, chips: seq<nat>, eliminated: seq<bool>, danger: seq<bool>,
                                                  next: int, attempts: nat, q: int, i: int)
    requires |chips| == SeatCount && |eliminated| == SeatCount && |danger| == SeatCount
    requires 0 <= next < SeatCount && 0 <= q < SeatCount && 0 <= i < SeatCount
    requires attempts + ClockwiseDistance(next, q) <= ProbeLimit
    requires CanTakeTurn(players, chips, eliminated, q)
    requires NoneCloser(players, chips, eliminated, next, ClockwiseDistance(next, q))
    ensures Scan(players, chips, eliminated, danger, next, attempts).danger[i] ==
      (danger[i] || (ClockwiseDistance(next, i) < ClockwiseDistance(next, q) && IsActive(players, eliminated, i)))
    decreases ProbeLimit - attempts
  {
    var n := (next + 1) % 4;
    OriginStep(next, q);
    if n != q {
      ProbeBeforeNearest(players, chips, eliminated, danger, next, attempts, q);
      var f := ProbeFlags(players, eliminated, danger, n);
      ScanStopsAtNearestDanger(players, chips, f.0, f.1, n, attempts + 1, q, i);
      ProbeShiftsWindow(players, eliminated, danger, next, q, i);
    }
  }

  /** From any loop state with enough probes left to reach `q`, the nearest
      seat clockwise that can take a turn, the loop breaks at `q`. On the
      way it eliminates each active seat strictly before `q` that was
      already in danger, and puts every other active seat before `q` in
      danger; nothing else changes. */
  lemma ScanStopsAtNearest(players: seq<string>, chips: seq<nat>, eliminated: seq<bool>, danger: seq<bool>,
                           next: int, attempts: nat, q: int)
    requires |chips| == SeatCount && |eliminated| == SeatCount && |danger| == SeatCount
    requires 0 <= next < SeatCount && 0 <= q < SeatCount
    requires attempts + ClockwiseDistance(next, q) <= ProbeLimit
    requires CanTakeTurn(players, chips, eliminated, q)
    requires forall i :: 0 <= i < SeatCount && CanTakeTurn(players, chips, eliminated, i) ==>
      ClockwiseDistance(next, q) <= ClockwiseDistance(next, i)
    ensures var r := Scan(players, chips, eliminated, danger, next, attempts);
      r.found && r.next == q &&
      |r.eliminated| == SeatCount && |r.danger| == SeatCount &&
      (forall i :: 0 <= i < SeatCount ==>
        r.eliminated[i] == (eliminated[i] ||
          (ClockwiseDistance(next, i) < ClockwiseDistance(next, q) && IsActive(players, eliminated, i) && danger[i]))) &&
      (forall i :: 0 <= i < SeatCount ==>
        r.danger[i] == (danger[i] ||
          (ClockwiseDistance(next, i) < ClockwiseDistance(next, q) && IsActive(players, eliminated, i))))
  {
    ScanStopsAtNearestEnd(players, chips, eliminated, danger, next, attempts, q);
    forall i | 0 <= i < SeatCount
      ensures var r := Scan(players, chips, eliminated, danger, next, attempts);
        r.eliminated[i] == (eliminated[i] ||
          (ClockwiseDistance(next, i) < ClockwiseDistance(next, q) && IsActive(players, eliminated, i) && danger[i])) &&
        r.danger[i] == (danger[i] ||
          (ClockwiseDistance(next, i) < ClockwiseDistance(next, q) && IsActive(players, eliminated, i)))
    {
      ScanStopsAtNearestEliminated(players, chips, eliminated, danger, next, attempts, q, i);
      ScanStopsAtNearestDanger(players, chips, eliminated, danger, next, attempts, q, i);
    }
  }

  /** `ScanWithoutStopEnd` counted in single steps, as the loop advances `next`;
      the form the ten-probe lemma below uses. */
  lemma {:induction false} ScanWithoutStopWalk(players: seq<string>, chips: seq<nat>, eliminated: seq<bool>, danger: seq<bool>,
                                              next: int, attempts: nat)
    requires |chips| == SeatCount && |eliminated| == SeatCount && |danger| == SeatCount
    requires 0 <= next < SeatCount && attempts <= ProbeLimit
    requires NoneCanTakeTurn(players, chips, eliminated)
    ensures !Scan(players, chips, eliminated, danger, next, attempts).found
    ensures Scan(players, chips, eliminated, danger, next, attempts).next == SeatAfter(next, ProbeLimit - attempts)
    decreases ProbeLimit - attempts
  {
    if attempts < ProbeLimit {
      var n := (next + 1) % 4;
      assert n == if next == SeatCount - 1 then 0 else next + 1;
      ProbeContinues(players, chips, eliminated, danger, next, attempts);
      var f := ProbeFlags(players, eliminated, danger, n);
      ScanWithoutStopWalk(players, chips, f.0, f.1, n, attempts + 1);
      assert SeatAfter(next, ProbeLimit - attempts) == SeatAfter(n, ProbeLimit - (attempts + 1));
    }
  }

  /** Where `ScanWithoutStop` ends: no break, `ProbeLimit - attempts` seats on. */
  lemma ScanWithoutStopEnd(players: seq<string>, chips: seq<nat>, eliminated: seq<bool>, danger: seq<bool>,
                           next: int, attempts: nat)
    requires |chips| == SeatCount && |eliminated| == SeatCount && |danger| == SeatCount
    requires 0 <= next < SeatCount && attempts <= ProbeLimit
    requires NoneCanTakeTurn(players, chips, eliminated)
    ensures !Scan(players, chips, eliminated, danger, next, attempts).found
    ensures Scan(players, chips, eliminated, danger, next, attempts).next == (next + (ProbeLimit - attempts)) % 4
  {
    ScanWithoutStopWalk(players, chips, eliminated, danger, next, attempts);
    SeatAfterIsModular(next, ProbeLimit - attempts);
  }

  /** Per-seat form of `ScanWithoutStop`. */
  lemma {:induction false} ScanWithoutStopSeat(players: seq<string>, chips: seq<nat>, eliminated: seq<bool>, danger: seq<bool>,
                                               next: int, attempts: nat, i: int)
    requires |chips| == SeatCount && |eliminated| == SeatCount && |danger| == SeatCount
    requires 0 <= next < SeatCount && attempts <= ProbeLimit && 0 <= i < SeatCount
    requires NoneCanTakeTurn(players, chips, eliminated)
    ensures var r := Scan(players, chips, eliminated, danger, next, attempts);
      var left := ProbeLimit - attempts;
      var c := ClockwiseDistance(next, i);
      r.eliminated[i] == (eliminated[i] || (IsActive(players, eliminated, i) && (c + 4 <= left || (c <= left && danger[i])))) &&
      r.danger[i] == (danger[i] || (IsActive(players, eliminated, i) && c <= left))
    decreases ProbeLimit - attempts
  {
    var left := ProbeLimit - attempts;
    var c := ClockwiseDistance(next, i);
    if left == 0 {
      assert Scan(players, chips, eliminated, danger, next, attempts) == ScanResult(eliminated, danger, next, false);
    } else {
      var n := (next + 1) % 4;
      OriginStep(next, i);
      ProbeContinues(players, chips, eliminated, danger, next, attempts);
      var f := ProbeFlags(players, eliminated, danger, n);
      ScanWithoutStopSeat(players, chips, f.0, f.1, n, attempts + 1, i);
      if i == n {
        assert c == 1 && ClockwiseDistance(n, i) == 4;
      } else {
        assert f.0[i] == eliminated[i] && f.1[i] == danger[i];
        assert IsActive(players, f.0, i) == IsActive(players, eliminated, i);
        assert ClockwiseDistance(n, i) == c - 1;
      }
    }
  }

  /** From any loop state in which no seat can take a turn, the loop runs out
      its probes and stands `ProbeLimit - attempts` seats further on. With
      `left` probes remaining, an active seat first reached after `d` probes
      is visited once when `d <= left < d + 4` (eliminated if it was in
      danger, otherwise put in danger) and at least twice when
      `d + 4 <= left` (eliminated whatever its danger flag was). */
  lemma ScanWithoutStop(players: seq<string>, chips: seq<nat>, eliminated: seq<bool>, danger: seq<bool>,
                        next: int, attempts: nat)
    requires |chips| == SeatCount && |eliminated| == SeatCount && |danger| == SeatCount
    requires 0 <= next < SeatCount && attempts <= ProbeLimit
    requires forall i :: 0 <= i < SeatCount ==> !CanTakeTurn(players, chips, eliminated, i)
    ensures var r := Scan(players, chips, eliminated, danger, next, attempts);
      var left := ProbeLimit - attempts;
      !r.found && r.next == (next + left) % 4 &&
      |r.eliminated| == SeatCount && |r.danger| == SeatCount &&
      (forall i :: 0 <= i < SeatCount ==>
        r.eliminated[i] == (eliminated[i] || (IsActive(players, eliminated, i) &&
          (ClockwiseDistance(next, i) + 4 <= left || (ClockwiseDistance(next, i) <= left && danger[i]))))) &&
      (forall i :: 0 <= i < SeatCount ==>
        r.danger[i] == (danger[i] || (IsActive(players, eliminated, i) && ClockwiseDistance(next, i) <= left)))
  {
    ScanWithoutStopEnd(players, chips, eliminated, danger, next, attempts);
    var left := ProbeLimit - attempts;
    forall i | 0 <= i < SeatCount
      ensures var r := Scan(players, chips, eliminated, danger, next, attempts);
        r.eliminated[i] == (eliminated[i] || (IsActive(players, eliminated, i) &&
          (ClockwiseDistance(next, i) + 4 <= left || (ClockwiseDistance(next, i) <= left && danger[i])))) &&
        r.danger[i] == (danger[i] || (IsActive(players, eliminated, i) && ClockwiseDistance(next, i) <= left))
    {
      ScanWithoutStopSeat(players, chips, eliminated, danger, next, attempts, i);
    }
  }

  /** `nextTurn` breaks exactly when some seat is active and holds chips;
      it then moves the turn to the nearest such seat clockwise from the
      current one, and the only seats it touches lie strictly between the
      two: those already in danger are eliminated, the others are put in
      danger and skipped. */
  lemma NextTurnFindsNearest(players: seq<string>, chips: seq<nat>, eliminated: seq<bool>, danger: seq<bool>, current: int)
    requires |chips| == SeatCount && |eliminated| == SeatCount && |danger| == SeatCount
    requires 0 <= current < SeatCount
    ensures var r := Scan(players, chips, eliminated, danger, current, 0);
      (r.found <==> exists i :: 0 <= i < SeatCount && CanTakeTurn(players, chips, eliminated, i)) &&
      (r.found ==>
        0 <= r.next < SeatCount && CanTakeTurn(players, chips, eliminated, r.next) &&
        (forall i :: 0 <= i < SeatCount && CanTakeTurn(players, chips, eliminated, i) ==>
          ClockwiseDistance(current, r.next) <= ClockwiseDistance(current, i)) &&
        (forall i :: 0 <= i < SeatCount ==>
          r.eliminated[i] == (eliminated[i] ||
            (ClockwiseDistance(current, i) < ClockwiseDistance(current, r.next) && IsActive(players, eliminated, i) && danger[i]))) &&
        (forall i :: 0 <= i < SeatCount ==>
          r.danger[i] == (danger[i] ||
            (ClockwiseDistance(current, i) < ClockwiseDistance(current, r.next) && IsActive(players, eliminated, i)))))
  {
    var r := Scan(players, chips, eliminated, danger, current, 0);
    if exists i :: 0 <= i < SeatCount && CanTakeTurn(players, chips, eliminated, i) {
      var q := Nearest(players, chips, eliminated, current);
      ScanStopsAtNearest(players, chips, eliminated, danger, current, 0, q);
    } else {
      ScanWithoutStop(players, chips, eliminated, danger, current, 0);
    }
  }

  /** What a whole `nextTurn` call leaves, as its caller relies on it: the
      pointer on a seat, no seat un-eliminated, only zero-chip seats newly
      eliminated, and the pointer on a seat that can take a turn whenever
      one exists. */
  lemma NextTurnFrame(players: seq<string>, chips: seq<nat>, eliminated: seq<bool>, danger: seq<bool>, current: int)
    requires |chips| == SeatCount && |eliminated| == SeatCount && |danger| == SeatCount
    requires 0 <= current < SeatCount
    ensures var r := Scan(players, chips, eliminated, danger, current, 0);
      0 <= r.next < SeatCount &&
      (forall i :: 0 <= i < SeatCount && eliminated[i] ==> r.eliminated[i]) &&
      (forall i :: 0 <= i < SeatCount && r.eliminated[i] && !eliminated[i] ==> chips[i] == 0) &&
      (!NoneCanTakeTurn(players, chips, eliminated) ==> CanTakeTurn(players, chips, r.eliminated, r.next))
  {
    ScanFrame(players, chips, eliminated, danger, current, 0);
    NextTurnFindsNearest(players, chips, eliminated, danger, current);
  }

  /** A seat that can take a turn at the least clockwise distance from `from`. */
  lemma Nearest(players: seq<string>, chips: seq<nat>, eliminated: seq<bool>, from: int) returns (q: int)
    requires 0 <= from < SeatCount
    requires exists i :: 0 <= i < SeatCount && CanTakeTurn(players, chips, eliminated, i)
    ensures 0 <= q < SeatCount && CanTakeTurn(players, chips, eliminated, q)
    ensures forall i :: 0 <= i < SeatCount && CanTakeTurn(players, chips, eliminated, i) ==>
      ClockwiseDistance(from, q) <= ClockwiseDistance(from, i)
  {
    var j :| 0 <= j < SeatCount && CanTakeTurn(players, chips, eliminated, j);
    var k := 1;
    while !CanTakeTurn(players, chips, eliminated, (from + k) % 4)
      invariant 1 <= k <= ClockwiseDistance(from, j)
      invariant forall i :: 0 <= i < SeatCount && ClockwiseDistance(from, i) < k ==> !CanTakeTurn(players, chips, eliminated, i)
      decreases ClockwiseDistance(from, j) - k
    {
      ClockwiseWalk(from, k, j);
      forall i | 0 <= i < SeatCount && ClockwiseDistance(from, i) == k ensures i == (from + k) % 4 {
        ClockwiseWalk(from, k, i);
      }
      k := k + 1;
    }
    q := (from + k) % 4;
    ClockwiseWalk(from, k, q);
  }

  /** When no seat holds chips, the loop of a single `nextTurn` (which runs
      only when the name list is not empty) eliminates every seat that was
      still active, including those that had no grace yet: each is
      probed at least twice in ten probes, the first probe granting grace and
      a later one eliminating. The turn pointer ends ten seats on, that is two
      seats clockwise of where it was. */
  lemma NextTurnWhenNobodyHasChips(players: seq<string>, chips: seq<nat>, eliminated: seq<bool>, danger: seq<bool>, current: int)
    requires |chips| == SeatCount && |eliminated| == SeatCount && |danger| == SeatCount
    requires 0 <= current < SeatCount
    requires NoneCanTakeTurn(players, chips, eliminated)
    ensures var r := Scan(players, chips, eliminated, danger, current, 0);
      !r.found && r.next == (current + 2) % 4 &&
      (forall i :: 0 <= i < SeatCount ==> r.eliminated[i] == (eliminated[i] || IsOccupied(players, i))) &&
      (forall i :: 0 <= i < SeatCount ==> r.danger[i] == (danger[i] || IsActive(players, eliminated, i)))
  {
    var r := Scan(players, chips, eliminated, danger, current, 0);
    ScanWithoutStopWalk(players, chips, eliminated, danger, current, 0);
    TenSeatsOn(current);
    forall i | 0 <= i < SeatCount
      ensures r.eliminated[i] == (eliminated[i] || IsOccupied(players, i))
      ensures r.danger[i] == (danger[i] || IsActive(players, eliminated, i))
    {
      ScanWithoutStopSeat(players, chips, eliminated, danger, current, 0, i);
      assert ClockwiseDistance(current, i) + 4 <= ProbeLimit;
    }
  }

  /** Grace before elimination: when `nextTurn` finds a seat to move to, any
      seat it eliminates had already been put in danger before the call. */
  lemma GraceBeforeElimination(players: seq<string>, chips: seq<nat>, eliminated: seq<bool>, danger: seq<bool>,
                               current: int, s: int)
    requires |chips| == SeatCount && |eliminated| == SeatCount && |danger| == SeatCount
    requires 0 <= current < SeatCount && 0 <= s < SeatCount
    requires Scan(players, chips, eliminated, danger, current, 0).found
    requires Scan(players, chips, eliminated, danger, current, 0).eliminated[s] && !eliminated[s]
    ensures danger[s]
  {
    NextTurnFindsNearest(players, chips, eliminated, danger, current);
  }

  /** The two-player check of the roll handler's skip branch and of
      `handleEndOfTurn`: with exactly two active seats and the current seat
      out of chips, the other active seat (found by
      `getLastActivePlayerIndex(currentPlayer)`) wins. It fires exactly when
      such a seat exists, never names the current seat, and names the
      highest active seat other than the current one. */
  function TwoPlayerWinner(players: seq<string>, chips: seq<nat>, eliminated: seq<bool>, current: int): (w: Option<int>)
    requires |chips| == SeatCount && 0 <= current < SeatCount
    ensures w.Some? <==>
      ActiveCount(players, eliminated) == 2 && chips[current] == 0 &&
      exists i :: IsActive(players, eliminated, i) && i != current
    ensures w.Some? ==> IsActive(players, eliminated, w.value) && w.value != current
    ensures w.Some? && IsActive(players, eliminated, current) ==>
      forall i :: IsActive(players, eliminated, i) ==> i == current || i == w.value
    ensures w.Some? ==> forall i :: w.value < i ==> !(IsActive(players, eliminated, i) && i != current)
  {
    if ActiveCount(players, eliminated) == 2 && chips[current] == 0 then
      var w := LastActiveIndex(players, eliminated, current);
      if w != -1 then
        if IsActive(players, eliminated, current) then
          TwoActiveOther(players, eliminated, current); Some(w)
        else Some(w)
      else None
    else None
  }
}
