/**
 * The die of game.js: five faces, one of which is drawn per die. The
 * source draws a uniformly random index into its face table; here that
 * index is an input.
 */
module Dice {

  /** The constructor names are the source's face strings; `Dottt` is the
      "keep" face. */
  datatype Face = Left | Right | Hub | Dottt | Wild

  const FaceCount: nat := 5
  const MaxDice: nat := 3

  /** `const sides` in `rollDie`, in the source's order. */
  const Sides: seq<Face> := [Left, Right, Hub, Dottt, Wild]

  /** `rollDie()` once the random index `k` is drawn: the face at that
      position of `sides`, which no other index draws. */
  function RollDie(k: int): (f: Face)
    requires 0 <= k < FaceCount
    ensures forall j :: 0 <= j < FaceCount && j != k ==> Sides[j] != f
  {
    Sides[k]
  }

  /** Position of a face in `sides`. */
  function FaceIndex(f: Face): (k: nat)
    ensures k < FaceCount && RollDie(k) == f
  {
    match f
    case Left => 0
    case Right => 1
    case Hub => 2
    case Dottt => 3
    case Wild => 4
  }

  /** Every face is drawn by exactly one of the five indices, so a uniform
      index gives each face probability 1/5. */
  lemma EachFaceHasOneIndex(f: Face, k: int)
    requires 0 <= k < FaceCount
    ensures RollDie(k) == f <==> k == FaceIndex(f)
  {
  }

  /** The roll handler's dice loop: it calls `rollDie` once per die, `numDice`
      times, and collects the faces in order; the i-th random index is
      `draws[i]`. */
  method RollFaces(numDice: nat, draws: seq<int>) returns (outcomes: seq<Face>)
    requires numDice <= |draws|
    requires forall i :: 0 <= i < |draws| ==> 0 <= draws[i] < FaceCount
    ensures |outcomes| == numDice
    ensures forall i :: 0 <= i < numDice ==> outcomes[i] == RollDie(draws[i])
  {
    outcomes := [];
    var i := 0;
    while i < numDice
      invariant 0 <= i <= numDice
      invariant |outcomes| == i
      invariant forall j :: 0 <= j < i ==> outcomes[j] == RollDie(draws[j])
    {
      outcomes := outcomes + [RollDie(draws[i])];
      i := i + 1;
    }
  }
}
