/**
 * The module-level state of game.js and the handlers that change it: the
 * join button, the roll button and `nextTurn`, with the neighbour lookups
 * that read it. DOM updates, sounds, history and the wild-choice panel are
 * not part of this model.
 */
module Engine {
  import opened Table
  import opened Dice
  import opened Turns
  import Text

  /** What the join handler did. The source returns nothing; its two silent
      `return`s are `EmptyName` and `TableFull`. */
  datatype JoinResult = Seated(seat: nat) | EmptyName | TableFull

  /** The roll handler's early `return`s. */
  datatype RollRefusal = FewerThanFourPlayers | NoPlayers | SeatCannotRoll

  /** Where the roll handler ended: refused, a last-man-standing win from
      the skip branch, a skipped turn handed to end-of-turn processing, or
      the faces thrown and passed on to the wild-choice panel. */
  datatype RollOutcome =
    | Refused(reason: RollRefusal)
    | LastManStanding(winner: int)
    | SkippedNoChips
    | Rolled(faces: seq<Face>)

  class Game {
    /** Seat names; "" marks an empty seat. */
    var players: seq<string>
    var chips: array<nat>
    var centerPot: nat
    var currentPlayer: int
    var eliminated: array<bool>
    /** The grace flag: set when a seat has been passed over with no chips. */
    var danger: array<bool>
    var gameStarted: bool

    ghost predicate Valid()
      reads this
    {
      chips.Length == SeatCount && eliminated.Length == SeatCount && danger.Length == SeatCount &&
      eliminated != danger &&
      |players| <= SeatCount &&
      0 <= currentPlayer < SeatCount
    }

    /** An eliminated seat holds no chips. */
    ghost predicate EliminatedHaveNoChips()
      requires Valid()
      reads this, chips, eliminated
    {
      forall i :: 0 <= i < SeatCount && eliminated[i] ==> chips[i] == 0
    }

    /** The initial values of the module-level variables. */
    constructor ()
      ensures Valid() && EliminatedHaveNoChips()
      ensures fresh(chips) && fresh(eliminated) && fresh(danger)
      ensures players == [] && centerPot == 0 && currentPlayer == 0 && !gameStarted
      ensures chips[..] == [0, 0, 0, 0]
      ensures eliminated[..] == [false, false, false, false]
      ensures danger[..] == [false, false, false, false]
    {
      players := [];
      chips := new nat[SeatCount] [0, 0, 0, 0];
      centerPot := 0;
      currentPlayer := 0;
      eliminated := new bool[SeatCount] [false, false, false, false];
      danger := new bool[SeatCount] [false, false, false, false];
      gameStarted := false;
    }

    /** The join button: a name that trims to nothing, or a table whose
        chosen seat is past the fourth, changes nothing; otherwise the
        trimmed name takes the first empty seat (or the next one at the end)
        with three chips and both flags cleared, and no other seat, the pot,
        the turn pointer or the started flag changes. */
    method Join(rawName: string) returns (result: JoinResult)
      requires Valid()
      modifies this`players, chips, eliminated, danger
      ensures Valid()
      ensures result == EmptyName <==> Text.AllWhitespace(rawName)
      ensures result == TableFull <==> !Text.AllWhitespace(rawName) && ChooseSeat(old(players)) >= SeatCount
      ensures !result.Seated? ==>
        players == old(players) && chips[..] == old(chips[..]) &&
        eliminated[..] == old(eliminated[..]) && danger[..] == old(danger[..])
      ensures result.Seated? ==>
        var s := result.seat;
        s == ChooseSeat(old(players)) && s < SeatCount &&
        players == PlaceName(old(players), s, Text.Trim(rawName)) && players[s] != "" &&
        chips[..] == old(chips[..])[s := StartingChips] &&
        eliminated[..] == old(eliminated[..])[s := false] &&
        danger[..] == old(danger[..])[s := false] &&
        ActiveCount(players, eliminated[..]) == ActiveCount(old(players), old(eliminated[..])) + 1
      ensures forall i :: 0 <= i < SeatCount && old(eliminated[i]) && !eliminated[i] ==> !IsOccupied(old(players), i)
      ensures old(EliminatedHaveNoChips()) ==> EliminatedHaveNoChips()
    {
      var name := Text.Trim(rawName);
      Text.TrimEmptyIffAllWhitespace(rawName);
      if name == "" {
        return EmptyName;
      }
      var logicalSeat := FindEmpty(players);
      if logicalSeat == -1 {
        logicalSeat := |players|;
      }
      if logicalSeat >= SeatCount {
        return TableFull;
      }
      JoinAddsOneActive(players, eliminated[..], logicalSeat, name);
      players := PlaceName(players, logicalSeat, name);
      chips[logicalSeat] := StartingChips;
      eliminated[logicalSeat] := false;
      danger[logicalSeat] := false;
      result := Seated(logicalSeat);
    }

    /** `getLeftSeatIndex(seat)`: the nearest active seat stepping `+1 mod 4`,
        or `seat` when none qualifies within four steps. */
    method GetLeftSeatIndex(seat: int) returns (idx: int)
      requires Valid() && 0 <= seat < SeatCount
      ensures 0 <= idx < SeatCount
      ensures idx == Neighbour(players, eliminated[..], seat, Leftward)
    {
      idx := seat;
      for i := 0 to 4
        invariant 0 <= idx < SeatCount
        invariant SearchFrom(players, eliminated[..], seat, Leftward, idx, i) == Neighbour(players, eliminated[..], seat, Leftward)
      {
        idx := (idx + 1) % 4;
        if IsOccupied(players, idx) && !eliminated[idx] {
          return idx;
        }
      }
      return seat;
    }

    /** `getRightSeatIndex(seat)`: the mirror image, stepping `-1 mod 4`. */
    method GetRightSeatIndex(seat: int) returns (idx: int)
      requires Valid() && 0 <= seat < SeatCount
      ensures 0 <= idx < SeatCount
      ensures idx == Neighbour(players, eliminated[..], seat, Rightward)
    {
      idx := seat;
      for i := 0 to 4
        invariant 0 <= idx < SeatCount
        invariant SearchFrom(players, eliminated[..], seat, Rightward, idx, i) == Neighbour(players, eliminated[..], seat, Rightward)
      {
        idx := (idx - 1 + 4) % 4;
        if IsOccupied(players, idx) && !eliminated[idx] {
          return idx;
        }
      }
      return seat;
    }

    /** The roll button, up to the hand-over to the wild-choice panel. The
        random index of the i-th die is `draws[i]`. */
    method Roll(draws: seq<int>) returns (outcome: RollOutcome)
      requires Valid()
      requires |draws| >= MaxDice && forall i :: 0 <= i < |draws| ==> 0 <= draws[i] < FaceCount
      modifies this`gameStarted, danger
      ensures Valid()
      // the gate
      ensures outcome == Refused(FewerThanFourPlayers) <==>
        !old(gameStarted) && ActiveCount(players, eliminated[..]) < SeatCount
      ensures outcome == Refused(NoPlayers) <==>
        (old(gameStarted) || ActiveCount(players, eliminated[..]) >= SeatCount) && |players| == 0
      ensures outcome == Refused(SeatCannotRoll) <==>
        (old(gameStarted) || ActiveCount(players, eliminated[..]) >= SeatCount) && |players| > 0 &&
        !IsActive(players, eliminated[..], currentPlayer)
      ensures outcome.Refused? <==>
        !(old(gameStarted) || ActiveCount(players, eliminated[..]) >= SeatCount) ||
        !IsActive(players, eliminated[..], currentPlayer)
      ensures outcome.Refused? ==> gameStarted == old(gameStarted) && danger[..] == old(danger[..])
      ensures !outcome.Refused? ==> gameStarted
      // a seat with chips throws min(chips, 3) dice
      ensures outcome.Rolled? <==> !outcome.Refused? && chips[currentPlayer] > 0
      ensures outcome.Rolled? ==>
        var n := |outcome.faces|;
        1 <= n <= MaxDice && n <= chips[currentPlayer] && (n == chips[currentPlayer] || n == MaxDice) &&
        (forall i :: 0 <= i < n ==> outcome.faces[i] == RollDie(draws[i])) &&
        danger[..] == old(danger[..])
      // a seat without chips: the other of two active seats wins, or the turn is skipped with grace
      ensures outcome.LastManStanding? <==>
        !outcome.Refused? && chips[currentPlayer] == 0 && ActiveCount(players, eliminated[..]) == 2
      ensures outcome.LastManStanding? ==>
        IsActive(players, eliminated[..], outcome.winner) && outcome.winner != currentPlayer &&
        (forall i :: IsActive(players, eliminated[..], i) ==> i == currentPlayer || i == outcome.winner) &&
        danger[..] == old(danger[..])
      ensures outcome == SkippedNoChips ==>
        danger[..] == old(danger[..])[currentPlayer := true] &&
        TwoPlayerWinner(players, chips[..], eliminated[..], currentPlayer).None?
    {
      if !gameStarted && ActiveCount(players, eliminated[..]) < SeatCount {
        return Refused(FewerThanFourPlayers);
      }
      if |players| == 0 {
        return Refused(NoPlayers);
      }
      if !IsOccupied(players, currentPlayer) || eliminated[currentPlayer] {
        return Refused(SeatCannotRoll);
      }
      gameStarted := true;
      var numDice := if chips[currentPlayer] < MaxDice then chips[currentPlayer] else MaxDice;
      if numDice == 0 {
        var winner := TwoPlayerWinner(players, chips[..], eliminated[..], currentPlayer);
        if winner.Some? {
          return LastManStanding(winner.value);
        }
        if ActiveCount(players, eliminated[..]) == 2 {
          TwoActiveOther(players, eliminated[..], currentPlayer);
        }
        danger[currentPlayer] := true;
        return SkippedNoChips;
      }
      var faces := RollFaces(numDice, draws);
      return Rolled(faces);
    }

    /** One pass of the `while` loop body of `nextTurn()` at seat `n`: it
        reports whether `n` stops the loop (active and holding chips), and
        otherwise leaves the flags `ProbeFlags` describes. */
    method ProbeSeat(n: int) returns (stop: bool)
      requires Valid() && 0 <= n < SeatCount
      modifies eliminated, danger
      ensures stop == CanTakeTurn(players, chips[..], old(eliminated[..]), n)
      ensures stop ==> eliminated[..] == old(eliminated[..]) && danger[..] == old(danger[..])
      ensures !stop ==> (eliminated[..], danger[..]) == ProbeFlags(players, old(eliminated[..]), old(danger[..]), n)
    {
      if !IsOccupied(players, n) {
        return false;
      }
      if eliminated[n] {
        return false;
      }
      if chips[n] == 0 {
        if danger[n] {
          eliminated[n] := true;
        } else {
          danger[n] := true;
        }
        return false;
      }
      return true;
    }

    /** `nextTurn()`: with an empty name list nothing changes; otherwise the state
        afterwards is what the ten-probe scan from the current seat leaves.
        Chips, names and the pot are untouched, no seat is un-eliminated, and
        when some seat can take a turn the pointer lands on one. */
    method NextTurn()
      requires Valid()
      modifies eliminated, danger, this`currentPlayer
      ensures Valid()
      ensures |players| == 0 ==>
        eliminated[..] == old(eliminated[..]) && danger[..] == old(danger[..]) && currentPlayer == old(currentPlayer)
      ensures |players| > 0 ==>
        var r := Scan(players, chips[..], old(eliminated[..]), old(danger[..]), old(currentPlayer), 0);
        eliminated[..] == r.eliminated && danger[..] == r.danger && currentPlayer == r.next
      ensures forall i :: 0 <= i < SeatCount && old(eliminated[i]) ==> eliminated[i]
      ensures |players| > 0 && !NoneCanTakeTurn(players, chips[..], old(eliminated[..])) ==>
        CanTakeTurn(players, chips[..], eliminated[..], currentPlayer)
      ensures old(EliminatedHaveNoChips()) ==> EliminatedHaveNoChips()
    {
      if |players| == 0 {
        return;
      }
      ghost var c0, e0, d0 := chips[..], eliminated[..], danger[..];
      ghost var result := Scan(players, c0, e0, d0, currentPlayer, 0);
      var attempts := 0;
      var next := currentPlayer;
      while attempts < ProbeLimit
        invariant 0 <= attempts <= ProbeLimit && 0 <= next < SeatCount
        invariant Scan(players, c0, eliminated[..], danger[..], next, attempts) == result
        modifies eliminated, danger
      {
        next := (next + 1) % 4;
        attempts := attempts + 1;
        var stop := ProbeSeat(next);
        if stop {
          break;
        }
      }
      currentPlayer := next;
      assert chips[..] == c0;
      NextTurnFrame(players, c0, e0, d0, old(currentPlayer));
    }
  }
}
