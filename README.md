# Thousanaire turn-and-seat engine in Dafny

This project models the turn-and-seat engine of the Thousanaire dice game (`game.js`). Four seats sit around a circular table. The game state is:

- `players`, the seat names;
- `chips`, `eliminated` and `danger` (the grace flag), one entry per seat;
- `centerPot`, `currentPlayer` and `gameStarted`.

The model covers the handlers that change this state:

- the join button;
- the roll button, up to the hand-over to the wild-choice panel;
- `nextTurn`.

It also covers the queries these handlers use:

- `activePlayerCount`;
- `getLastActivePlayerIndex`;
- `getLeftSeatIndex` and `getRightSeatIndex`;
- the face table of `rollDie`;
- the two-player win check at the start of `handleEndOfTurn`.

Modules:

- `Text` (`text.dfy`): JavaScript's `trim()` and the "empty name" test of the join handler.
- `Table` (`table.dfy`): seats, their occupancy and activity, and the active-seat count. It also holds the last-active-seat query, the seat a newcomer takes and the neighbour search. It includes a clockwise distance that the specifications of the searches are written in.
- `Dice` (`dice.dfy`): the five faces and the loop that throws `numDice` dice. The random index of each die is an input.
- `Turns` (`turns.dfy`): `Scan` is the loop of `nextTurn` written as a function. The module holds the lemmas that say what the loop does, and the two-player winner check.
- `Engine` (`engine.dfy`): the class `Game`. The source's module-level variables are its fields. `chips`, `eliminated` and `danger` are arrays of four. The handlers are its methods, each proved against the functions above.
- `Scenarios` (`scenarios.dfy`): four players join, a fifth is turned away, the first roll throws three dice, and the turn passes on.

The name list is a `seq<string>`. It may be shorter than four, and the empty string stands for a falsy entry. A seat is occupied when its index is below the list's length and its name is not empty.

Where the code's behaviour is surprising, the model follows the code:

- `nextTurn` makes up to ten probes, two and a half laps of the table, where the neighbour searches make four (`game.js:121`, `game.js:262`).
- A zero-chip seat that has just been given grace is skipped, not handed the turn (`game.js:278-281`).
- `currentPlayer` is assigned after the loop whatever happened (`game.js:288`). When the name list is not empty and no seat can take a turn, the pointer ends ten seats on, which is two seats clockwise.
- When the name list is not empty and no seat holds chips, a single `nextTurn` eliminates every active seat, including those that had no grace yet. Ten probes visit each seat at least twice: the first visit grants grace and a later one eliminates. `Turns.NextTurnWhenNobodyHasChips` proves this.

## Model

| member | source | states |
|---|---|---|
| Text.Trim | game.js:83 | the trimmed name is a contiguous slice of the input, all that is cut from either end is whitespace, and it neither starts nor ends with whitespace |
| Text.TrimEmptyIffAllWhitespace | game.js:83-84 | the name trims to "" (so the join is refused) exactly when it is empty or all whitespace |
| Table.CountActiveBelowIsCardinality | game.js:292-294 | the counting recursion over the first `k` seats counts the set of occupied, non-eliminated seats among them |
| Table.ActiveCount | game.js:292-294 | `activePlayerCount()` is at most the length of the name list, and it is zero exactly when no seat is occupied and not eliminated |
| Table.ActiveCountIsCardinality | game.js:292-294 | `activePlayerCount()` is the number of occupied, non-eliminated seats, and at most the length of the name list |
| Table.LastActiveIndex | game.js:296-302 | `getLastActivePlayerIndex(ex)` is -1 or a seat index; it is -1 exactly when no seat is occupied, non-eliminated and not `ex`; otherwise it is such a seat and no higher seat is |
| Table.LastActiveBelow | game.js:296-302 | `getLastActivePlayerIndex(ex)` is -1 exactly when no seat is occupied, non-eliminated and not `ex`; otherwise it is such a seat and no higher seat qualifies |
| Table.TwoActiveOther | game.js:162-164 | with exactly two active seats, one of them the current seat, the last active seat other than it exists and is the only other active seat |
| Table.FindEmptyFrom | game.js:86 | `players.findIndex(p => !p)`: -1 when every entry is named, otherwise an empty entry before which every entry is named |
| Table.ChooseSeat | game.js:86-87 | the seat a newcomer takes is unoccupied, every seat before it is occupied, and it is at most `players.length` |
| Table.PlaceName | game.js:93 | writing the name at the chosen seat sets that seat, keeps every other entry, and grows the list only when the seat is at its end |
| Table.JoinAddsOneActive | game.js:93-95 | seating a non-empty name in a free seat and clearing its elimination flag adds exactly one active seat |
| Table.ClockwiseWalk | game.js:122 | walking `k` single `+1 mod 4` steps from `from` lands on a seat at clockwise distance `k`, and that seat is the only one at that distance |
| Table.SearchFrom | game.js:120-125 | the remaining probes of the neighbour loop return either the starting seat or a seat index that is occupied and not eliminated |
| Table.SearchFromIsNearest | game.js:120-125 | the remaining probes of the neighbour loop return the nearest active seat in the search direction, or the starting seat when none is active |
| Table.Neighbour | game.js:119-135 | a neighbour lookup returns either `seat` itself or a seat index that is occupied and not eliminated |
| Table.NeighbourIsNearest | game.js:119-135 | a neighbour lookup returns a seat index in 0..3: the active seat nearest in its direction with none skipped, or `seat` itself when no seat is active |
| Table.NeighboursAreMirrored | game.js:119-135 | from an active seat, stepping left and then right returns to that seat |
| Dice.RollDie | game.js:185-188 | the die shows the face at index `k` of `sides`, and no other index draws that face |
| Dice.FaceIndex | game.js:185-188 | every face is drawn by some index into `sides` |
| Dice.EachFaceHasOneIndex | game.js:185-188 | every face is drawn by exactly one of the five indices |
| Dice.RollFaces | game.js:176-177 | exactly `numDice` faces are thrown, the i-th being `sides[draws[i]]` |
| Turns.Scan | game.js:262-286 | the loop of `nextTurn` as a function of the state before its remaining probes; its own contract only keeps one elimination flag and one danger flag per seat. What it computes is stated by the `Scan*` and `NextTurn*` lemmas below |
| Turns.ProbeFlags | game.js:266-283 | a probe that does not stop the loop changes only the probed seat: an active seat in danger is eliminated, an active seat out of danger is put in danger, and an empty or eliminated seat is untouched |
| Turns.ScanStep | game.js:262-286 | one probe of the loop, branch by branch as the code writes it: skip an empty or eliminated seat, break on chips, otherwise eliminate or grant grace and go on |
| Turns.ScanFrame | game.js:262-286 | the loop never clears an elimination or a danger flag, eliminates only zero-chip seats, and when it breaks it stands on an active seat with chips |
| Turns.ProbeBeforeNearest | game.js:263-283 | a probe of a seat before the nearest seat that can take a turn does not stop the loop and leaves that seat the nearest |
| Turns.ProbeShiftsWindow | game.js:263-283 | after a probe, the flags it left, seen from the probed seat, give the same outcome for every seat as the old flags seen from the seat before |
| Turns.ScanStopsAtNearestEnd | game.js:262-286 | with enough probes left, the loop breaks at the nearest seat clockwise that can take a turn |
| Turns.ScanStopsAtNearestEliminated | game.js:269-276 | the loop eliminates exactly the active seats before the stopping seat that were already in danger |
| Turns.ScanStopsAtNearestDanger | game.js:269-282 | the loop puts in danger exactly the active seats before the stopping seat |
| Turns.ScanStopsAtNearest | game.js:262-286 | the break seat and the full per-seat flags, when the loop breaks at the nearest seat with chips |
| Turns.SeatAfterIsModular | game.js:263 | `k` single `(next + 1) % 4` steps land on `(from + k) % 4` |
| Turns.TenSeatsOn | game.js:262-264 | ten steps around four seats end two seats clockwise of the start |
| Turns.ScanWithoutStopEnd | game.js:262-288 | when no seat can take a turn, the loop runs out its probes without a break and stands at `(next + left) % 4`, `left` being the probes remaining |
| Turns.ScanWithoutStopSeat | game.js:266-283 | when no seat can take a turn, an active seat reached within the remaining probes is put in danger, and it is eliminated when it was in danger or is reached a second time |
| Turns.ScanWithoutStop | game.js:262-288 | the whole per-seat outcome of a loop that never breaks |
| Turns.NextTurnFindsNearest | game.js:256-290 | `nextTurn` breaks exactly when some seat is active with chips; it then moves to the nearest such seat clockwise and touches only the seats strictly between |
| Turns.NextTurnFrame | game.js:256-290 | after `nextTurn` the pointer is a seat, no elimination is undone, only zero-chip seats are newly eliminated, and the pointer is on a seat that can take a turn whenever one exists |
| Turns.NextTurnWhenNobodyHasChips | game.js:256-290 | with a non-empty name list and no seat able to take a turn, one call eliminates every occupied seat, puts every active seat in danger and moves the pointer two seats clockwise |
| Turns.GraceBeforeElimination | game.js:269-276 | when `nextTurn` finds a seat, every seat it eliminates was already in danger before the call |
| Turns.CanTakeTurn | game.js:266-285 | the seat the `nextTurn` loop stops on: a member of the set of occupied, non-eliminated seats, holding chips |
| Turns.TwoPlayerWinner | game.js:305-309 | the end-of-turn check declares a winner exactly when two seats are active, the current seat has no chips and another active seat exists; the winner is active, never the current seat, and the highest active seat other than the current one, as `getLastActivePlayerIndex(currentPlayer)` returns |
| Engine.Game.constructor | game.js:46-62 | the initial state: no names, four zero chip counts, all flags clear, pointer at seat 0, empty pot, game not started |
| Engine.Game.Join | game.js:82-108 | an empty or whitespace name, or a full table, changes nothing. Otherwise the trimmed name takes `ChooseSeat` with three chips and both flags cleared, and no other seat changes. The active count grows by one, and eliminated seats still hold no chips |
| Engine.Game.GetLeftSeatIndex | game.js:119-126 | the `for` loop returns what the `+1 mod 4` neighbour search specifies |
| Engine.Game.GetRightSeatIndex | game.js:128-135 | the `for` loop returns what the `-1 mod 4` neighbour search specifies |
| Engine.Game.Roll | game.js:137-183 | the three refusals happen exactly under their conditions and change nothing. Otherwise `gameStarted` is set. A seat with chips throws `min(chips, 3)` dice. A seat without chips either hands the win to the other of two active seats, or gets grace, and then the end-of-turn check does not fire |
| Engine.Game.ProbeSeat | game.js:266-285 | one loop body: it breaks exactly on an active seat with chips and otherwise leaves the flags `ProbeFlags` gives |
| Engine.Game.NextTurn | game.js:256-290 | with an empty name list (`players.length === 0`) nothing changes. Otherwise the arrays and pointer are those the ten-probe `Scan` leaves. Eliminations are never undone, the pointer lands on a seat with chips whenever one exists, and eliminated seats hold no chips |
| Scenarios.FourJoin | game.js:82-98 | four joins fill the table with four active seats of three chips each |
| Scenarios.PassTurnToNextSeat | game.js:256-290 | from seat 0, with seat 1 active and holding chips, the turn passes to seat 1 |

## Left out

- The DOM, sound, animation and rendering are not modelled: `startIntroOverlay`, `playSound`, `animateDice`, `renderDice`, `updateTable`, `highlightCurrentPlayer`, `initSeatMapping`, and the result and history texts. They hold no game state.
- The idle-dice timer that joining clears is not modelled.
- The avatar and colour a newcomer picks are presentation data.
- `Math.random` in `rollDie` becomes the input `draws`, one face index in 0..4 per die.
- `openWildChoicePanel`, the face resolution and the steal protocol are not modelled. They are outside this model, together with whatever they do to the chips and the pot. As a result, no modelled operation changes `chips` after a join or changes `centerPot`.
- `resetGame` and `hideGameOver` (run by the reset and play-again buttons, `game.js:110-117`), `showGameOver` (`game.js:166`), `addHistory` (`game.js:160`, `game.js:180`; a history log that holds no game state) and `handleEndOfTurn` after its two-player check are not modelled. The roll handler's call to `handleEndOfTurn` is modelled only as the winner check, which the result `SkippedNoChips` proves does not fire.
- `chat.js` is not part of this model: it is DOM wiring and speech output.
- Chip counts are `nat`. Among the modelled operations only the join handler writes `chips`, and it writes 3 (`game.js:94`).
- Engine.Game.Roll: requires at least three valid draws, one per die it may throw. It does not model the random choice itself.
- `getLastActivePlayerIndex()` called with its default `excludeIndex = null` is not modelled: both calls (`game.js:163`, `game.js:308`) pass `currentPlayer`.
- The JavaScript array may hold holes or `undefined` where the model holds "". Both are falsy in every test the code makes.
