/** A client of the handlers: four players join an empty table, a fifth is
    turned away, and the first roll throws three dice for seat 0,
    and the turn then passes to seat 1. */
module Scenarios {
  import opened Table
  import opened Dice
  import opened Turns
  import opened Engine
  import Text

  method JoinNamed(g: Game, name: string, k: nat) returns (r: JoinResult)
    requires g.Valid() && name != [] && !Text.IsWhitespace(name[0])
    requires k < SeatCount && |g.players| == k && forall i :: 0 <= i < k ==> g.players[i] != ""
    requires ActiveCount(g.players, g.eliminated[..]) == k
    requires forall i :: 0 <= i < k ==> !g.eliminated[i] && g.chips[i] == StartingChips
    modifies g`players, g.chips, g.eliminated, g.danger
    ensures g.Valid() && r == Seated(k) && |g.players| == k + 1
    ensures forall i :: 0 <= i <= k ==> g.players[i] != ""
    ensures ActiveCount(g.players, g.eliminated[..]) == k + 1
    ensures forall i :: 0 <= i <= k ==> !g.eliminated[i] && g.chips[i] == StartingChips
  {
    r := g.Join(name);
  }

  /** Four players join a new table; every seat is then active with three
      chips, the turn is at seat 0 and the game has not started. */
  method FourJoin() returns (g: Game)
    ensures fresh(g) && fresh(g.chips) && fresh(g.eliminated) && fresh(g.danger)
    ensures g.Valid() && |g.players| == SeatCount && ActiveCount(g.players, g.eliminated[..]) == SeatCount
    ensures forall i :: 0 <= i < SeatCount ==> !g.eliminated[i] && g.chips[i] == StartingChips
    ensures g.currentPlayer == 0 && !g.gameStarted
  {
    g := new Game();
    var a := JoinNamed(g, "Ann", 0);
    var b := JoinNamed(g, "Bo", 1);
    var c := JoinNamed(g, "Cy", 2);
    var d := JoinNamed(g, "Di", 3);
  }

  method FourJoinThenFirstRoll()
  {
    var g := FourJoin();
    assert !Text.IsWhitespace("Ed"[0]);
    var e := g.Join("Ed");
    assert e == TableFull;
    assert g.chips[0] == 3;
    assert IsActive(g.players, g.eliminated[..], 0);
    var roll := g.Roll([3, 3, 3]);
    assert !roll.Refused?;
    assert roll.Rolled? && |roll.faces| == 3;
    assert roll.faces == [Dottt, Dottt, Dottt];
    assert g.gameStarted;
    PassTurnToNextSeat(g);
    assert g.currentPlayer == 1;
  }

  /** From seat 0, with seat 1 active and holding chips, the turn goes to seat 1. */
  method PassTurnToNextSeat(g: Game)
    requires g.Valid() && g.currentPlayer == 0
    requires CanTakeTurn(g.players, g.chips[..], g.eliminated[..], 1)
    modifies g.eliminated, g.danger, g`currentPlayer
    ensures g.currentPlayer == 1
  {
    ghost var elim, grace := g.eliminated[..], g.danger[..];
    NextTurnFindsNearest(g.players, g.chips[..], elim, grace, 0);
    g.NextTurn();
    assert ClockwiseDistance(0, 1) == 1;
  }
}
