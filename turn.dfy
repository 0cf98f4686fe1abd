/**
 *  The turn engine as a function of the game state: one call of
 *  `handleRoll` with a given die value, from guard to turn advancement.
 *  Players are identified by their seat index; the `await`ed animation
 *  pauses and the rank modal's acknowledgement are sequential steps with no
 *  effect on the state.
 */
module Turn {

  import opened Options
  import opened Board
  import opened Players

  datatype GameState = GameState(
    positions: seq<int>,  // players[i].position, by seat index
    finished: seq<nat>,   // finishedPlayers as seat indices, in finish order
    current: nat,         // currentPlayerIndex
    processing: bool,     // isProcessingTurn
    ended: bool)          // gameEnded

  /** The state `start` leaves behind; it does not touch the turn guard. */
  function Started(n: nat, processing: bool): (r: GameState)
    ensures |r.positions| == n
    ensures Idle(r) <==> !processing && n > 0
  {
    GameState(seq(n, _ => 1), [], 0, processing, false)
  }

  // ---------------------------------------------------------------- nextTurn

  /** The skip loop of `nextTurn`: move on while the seat is finished, at most `total` times. */
  function Scan(finished: seq<nat>, next: nat, loops: nat, total: nat): (r: nat)
    requires next < total
    ensures r < total
    decreases total - loops
  {
    if next in finished && loops < total then Scan(finished, (next + 1) % total, loops + 1, total) else next
  }

  function NextTurnIndex(finished: seq<nat>, current: nat, total: nat): (r: nat)
    requires total > 0
    ensures r < total
  {
    Scan(finished, (current + 1) % total, 0, total)
  }

  /** Seat `i` is passed when going round the table from seat `from` to seat `to`. */
  predicate StrictlyBetween(from: nat, to: nat, i: nat)
  {
    if from < to then from < i < to else from < i || i < to
  }

  /** Number of seats moved going round the table from `from` to `to` (a full lap when they coincide). */
  function Dist(from: nat, to: nat, n: nat): nat
    requires from < n && to < n
  {
    if to > from then to - from else to - from + n
  }

  lemma SuccessorSeat(i: nat, n: nat)
    requires i < n
    ensures (i + 1) % n == if i + 1 < n then i + 1 else 0
  {
  }

  lemma {:induction false} ScanFindsUnfinished(f: seq<nat>, cur: nat, n: nat, next: nat, loops: nat)
    requires cur < n && next < n && loops < n
    requires loops + 1 == Dist(cur, next, n)
    requires forall i :: 0 <= i < n && StrictlyBetween(cur, next, i) ==> i in f
    requires exists i :: 0 <= i < n && i !in f
    ensures Scan(f, next, loops, n) !in f
    ensures forall i :: 0 <= i < n && StrictlyBetween(cur, Scan(f, next, loops, n), i) ==> i in f
    decreases n - loops
  {
    if next in f {
      if loops + 1 == n {
        assert next == cur;
        forall i | 0 <= i < n
          ensures i in f
        {
          if i != cur {
            assert StrictlyBetween(cur, next, i);
          }
        }
        assert false;
      } else {
        SuccessorSeat(next, n);
        ScanFindsUnfinished(f, cur, n, (next + 1) % n, loops + 1);
      }
    }
  }

  /**
   *  While some seat is unfinished, `nextTurn` picks the first unfinished seat
   *  after the current one in seating order: every seat it passes is finished.
   */
  lemma NextTurnIndexFindsUnfinished(f: seq<nat>, cur: nat, n: nat)
    requires cur < n
    requires exists i :: 0 <= i < n && i !in f
    ensures NextTurnIndex(f, cur, n) !in f
    ensures forall i :: 0 <= i < n && StrictlyBetween(cur, NextTurnIndex(f, cur, n), i) ==> i in f
  {
    SuccessorSeat(cur, n);
    ScanFindsUnfinished(f, cur, n, (cur + 1) % n, 0);
  }

  lemma {:induction false} ScanAllFinished(f: seq<nat>, cur: nat, n: nat, next: nat, loops: nat)
    requires cur < n && next < n && loops < n
    requires loops + 1 == Dist(cur, next, n)
    requires forall i :: 0 <= i < n ==> i in f
    ensures Scan(f, next, loops, n) == (cur + 1) % n
    decreases n - loops
  {
    SuccessorSeat(next, n);
    if loops + 1 < n {
      ScanAllFinished(f, cur, n, (next + 1) % n, loops + 1);
    }
  }

  /** When every seat is finished the scan gives up after one lap, on the seat after the current one. */
  lemma NextTurnIndexAllFinished(f: seq<nat>, cur: nat, n: nat)
    requires cur < n
    requires forall i :: 0 <= i < n ==> i in f
    ensures NextTurnIndex(f, cur, n) == (cur + 1) % n
  {
    SuccessorSeat(cur, n);
    ScanAllFinished(f, cur, n, (cur + 1) % n, 0);
  }

  // ------------------------------------------------- handlePlayerFinish, endGame

  /** `players.find(p => !finishedPlayers.includes(p))`, searching from seat `from`. */
  function FirstUnfinished(finished: seq<nat>, from: nat, n: nat): (r: Option<nat>)
    ensures r.Some? ==> from <= r.value < n && r.value !in finished
    ensures r.Some? ==> forall j :: from <= j < r.value ==> j in finished
    ensures r.None? ==> forall j :: from <= j < n ==> j in finished
    decreases n - from
  {
    if from >= n then None
    else if from !in finished then Some(from)
    else FirstUnfinished(finished, from + 1, n)
  }

  /** The game is over: the one player left, if any, is appended as last place. */
  function EndGame(s: GameState): (r: GameState)
    ensures r.ended
    ensures r.positions == s.positions && r.current == s.current && r.processing == s.processing
    ensures s.finished <= r.finished && |r.finished| <= |s.finished| + 1
    ensures |r.finished| == |s.finished| + 1 <==> exists i :: 0 <= i < |s.positions| && i !in s.finished
    ensures |r.finished| == |s.finished| + 1 ==>
              r.finished[|s.finished|] < |s.positions| && r.finished[|s.finished|] !in s.finished
  {
    match FirstUnfinished(s.finished, 0, |s.positions|)
    case Some(last) => s.(ended := true, finished := s.finished + [last])
    case None => s.(ended := true)
  }

  /**
   *  Player `p` has reached 100: it is ranked `|finished|`; the game ends once
   *  at most one player is left, otherwise the rank modal is acknowledged.
   */
  function HandlePlayerFinish(s: GameState, p: nat): (r: GameState)
    ensures s.finished + [p] <= r.finished && |r.finished| <= |s.finished| + 2
    ensures r.ended <==> s.ended || |s.finished| + 1 >= |s.positions| - 1
    ensures r.positions == s.positions && r.current == s.current && r.processing == s.processing
  {
    var s1 := s.(finished := s.finished + [p]);
    if |s1.finished| >= |s.positions| - 1 then EndGame(s1) else s1
  }

  // ------------------------------------------------------------- processTurn

  /** The position after the movement of a roll, before the finish check. */
  function MovedPosition(start: int, roll: int): (r: int)
    ensures start <= Finish && 0 <= roll ==> r <= Finish
  {
    var target := start + roll;
    if target > Finish then
      // move(100 - start) and the assignment of 100 are overwritten by the bounce
      Finish - (target - Finish)
    else
      Walk(start, roll)
  }

  /** `checkEntityInteractions`: at most one snake or ladder, the destination is not looked up again. */
  function ApplyTransport(b: Topology, cell: int): (r: int)
    ensures r != cell ==> cell in b.snakes || cell in b.ladders
    ensures WellFormed(b) && 1 <= cell <= Size ==> 1 <= r <= Size
  {
    match TransportFrom(b, cell)
    case Some(dest) => dest
    case None => cell
  }

  /** Step 5 of `processTurn`: a 6 gives a bonus turn unless `p` has just finished. */
  function AdvanceTurn(s: GameState, p: nat, roll: int): (r: GameState)
    requires |s.positions| > 0
    ensures !r.processing
    ensures r.positions == s.positions && r.finished == s.finished && r.ended == s.ended
    ensures s.current < |s.positions| ==> r.current < |s.positions|
    ensures r.current != s.current ==> !s.ended && (roll != 6 || p in s.finished)
  {
    var s1 :=
      if s.ended || (roll == 6 && p !in s.finished) then s
      else s.(current := NextTurnIndex(s.finished, s.current, |s.positions|));
    s1.(processing := false)
  }

  /** One turn of the current player, or of nobody when the seat is empty. */
  function ProcessTurn(s: GameState, roll: int, b: Topology): (r: GameState)
    ensures |r.positions| == |s.positions|
    ensures forall i :: 0 <= i < |s.positions| && i != s.current ==> r.positions[i] == s.positions[i]
    ensures s.finished <= r.finished && |r.finished| <= |s.finished| + 2
    ensures s.ended ==> r.ended
  {
    var n := |s.positions|;
    if s.current >= n then
      // players[currentPlayerIndex] is undefined: reading its position throws,
      // abandoning the turn with the guard still set
      s
    else if s.current in s.finished then
      s.(current := NextTurnIndex(s.finished, s.current, n), processing := false)
    else
      var p := s.current;
      var moved := MovedPosition(s.positions[p], roll);
      var s1 := s.(positions := s.positions[p := moved]);
      if moved == Finish then
        var s2 := HandlePlayerFinish(s1, p);
        if s2.ended then s2 else AdvanceTurn(s2, p, roll)
      else
        AdvanceTurn(s.(positions := s.positions[p := ApplyTransport(b, moved)]), p, roll)
  }

  /** `handleRoll`: the guard, then the turn; the seating never changes and nobody leaves the finish order. */
  function HandleRoll(s: GameState, roll: int, b: Topology): (r: GameState)
    ensures |r.positions| == |s.positions|
    ensures forall i :: 0 <= i < |s.positions| && i != s.current ==> r.positions[i] == s.positions[i]
    ensures s.finished <= r.finished && |r.finished| <= |s.finished| + 2
    ensures s.ended ==> r.ended
    ensures r.ended && !s.ended ==> r.processing
  {
    if s.processing || s.ended then s else ProcessTurn(s.(processing := true), roll, b)
  }

  // ------------------------------------------------------------- turn laws

  /** A state from which a roll is accepted and the current seat exists. */
  predicate Idle(s: GameState)
  {
    !s.processing && !s.ended && s.current < |s.positions|
  }

  lemma RollIgnoredWhileBusy(s: GameState, roll: int, b: Topology)
    requires s.processing || s.ended
    ensures HandleRoll(s, roll, b) == s
  {
  }

  /** A player already in the finish order does not move; the turn just passes on. */
  lemma FinishedPlayerOnlyPasses(s: GameState, roll: int, b: Topology)
    requires Idle(s) && s.current in s.finished
    ensures HandleRoll(s, roll, b) ==
            s.(current := NextTurnIndex(s.finished, s.current, |s.positions|))
  {
  }

  /** The movement law: exact without overshoot, bounced back by the excess otherwise. */
  lemma MovedPositionLaw(start: int, roll: int)
    requires 1 <= roll <= 6
    ensures start + roll <= Finish ==> MovedPosition(start, roll) == start + roll
    ensures start + roll > Finish ==> MovedPosition(start, roll) == 2 * Finish - start - roll
    ensures start + roll > Finish && start <= Finish ==>
              Finish - 6 <= MovedPosition(start, roll) < Finish
  {
    if start + roll <= Finish {
      WalkExact(start, roll);
    }
  }

  /**
   *  Landing exactly on 100: no transport, the player is appended to the
   *  finish order once, and the game ends on this very turn when at most one
   *  player is left; otherwise the turn passes on even after a 6.
   */
  lemma LandingOnFinish(s: GameState, roll: int, b: Topology)
    requires Idle(s) && s.current !in s.finished
    requires MovedPosition(s.positions[s.current], roll) == Finish
    ensures var r := HandleRoll(s, roll, b);
      r.positions == s.positions[s.current := Finish] &&
      |s.finished| < |r.finished| &&
      r.finished[..|s.finished| + 1] == s.finished + [s.current] &&
      (r.ended <==> |s.finished| + 1 >= |s.positions| - 1) &&
      (r.ended ==> r.processing && r.current == s.current) &&
      (!r.ended ==> r.finished == s.finished + [s.current] && !r.processing &&
                    r.current == NextTurnIndex(r.finished, s.current, |s.positions|))
  {
  }

  /**
   *  Any other landing: at most one transport, the finish order is unchanged,
   *  and a 6 keeps the same player while any other roll passes the turn on.
   */
  lemma LandingElsewhere(s: GameState, roll: int, b: Topology)
    requires Idle(s) && s.current !in s.finished
    requires MovedPosition(s.positions[s.current], roll) != Finish
    ensures var r := HandleRoll(s, roll, b);
      r.positions ==
        s.positions[s.current := ApplyTransport(b, MovedPosition(s.positions[s.current], roll))] &&
      r.finished == s.finished && !r.ended && !r.processing &&
      r.current == if roll == 6 then s.current else NextTurnIndex(s.finished, s.current, |s.positions|)
  {
  }

  /** A turn that ends the game leaves the guard set, and every later roll is ignored. */
  lemma GameOverKeepsGuard(s: GameState, roll: int, roll': int, b: Topology)
    requires Idle(s) && HandleRoll(s, roll, b).ended
    ensures HandleRoll(s, roll, b).processing
    ensures HandleRoll(HandleRoll(s, roll, b), roll', b) == HandleRoll(s, roll, b)
  {
  }

  // --------------------------------------------------- the reachable-state invariant

  predicate Distinct(f: seq<nat>)
  {
    forall i, j :: 0 <= i < j < |f| ==> f[i] != f[j]
  }

  predicate Seats(f: seq<nat>, n: nat)
  {
    forall k :: 0 <= k < |f| ==> f[k] < n
  }

  /**
   *  What holds between turns: the finish order is duplicate-free; while the
   *  game runs, at most one player short of the end-game threshold has
   *  finished and the current seat is unfinished; once over, every player is
   *  ranked.
   */
  predicate Consistent(s: GameState)
  {
    var n := |s.positions|;
    Distinct(s.finished) && Seats(s.finished, n) &&
    (n > 0 ==> s.current < n) &&
    (s.ended ==> |s.finished| == n) &&
    (!s.ended ==> |s.finished| == 0 || |s.finished| + 1 < n) &&
    (!s.ended && n > 0 ==> s.current !in s.finished)
  }

  /** The set of seats in a list. */
  function Elems(f: seq<nat>): (r: set<nat>)
    ensures forall x :: x in r <==> x in f
  {
    if f == [] then {} else Elems(f[..|f| - 1]) + {f[|f| - 1]}
  }

  /** The seats `0 .. n-1`. */
  function SeatRange(n: nat): (r: set<nat>)
    ensures forall i: nat :: i in r <==> i < n
  {
    if n == 0 then {} else SeatRange(n - 1) + {n - 1}
  }

  lemma {:induction false} DistinctCard(f: seq<nat>)
    requires Distinct(f)
    ensures |Elems(f)| == |f|
  {
    if f != [] {
      var g := f[..|f| - 1];
      assert f[|f| - 1] !in g;
      assert Distinct(g);
      DistinctCard(g);
    }
  }

  lemma {:induction false} RangeCard(n: nat)
    ensures |SeatRange(n)| == n
  {
    if n > 0 {
      RangeCard(n - 1);
    }
  }

  /** Pigeonhole for seat lists: a duplicate-free list of seats numbers at most `n`, all of them exactly when it has `n` entries. */
  lemma SeatCount(f: seq<nat>, n: nat)
    requires Distinct(f) && Seats(f, n)
    ensures |f| <= n
    ensures |f| == n ==> forall i :: 0 <= i < n ==> i in f
    ensures |f| < n ==> exists i :: 0 <= i < n && i !in f
  {
    var inF := Elems(f);
    var all := SeatRange(n);
    DistinctCard(f);
    RangeCard(n);
    var rest := all - inF;
    assert all == inF + rest;
    assert inF * rest == {};
    assert |all| == |inF| + |rest|;
    if |f| == n {
      assert |rest| == 0;
      forall i | 0 <= i < n
        ensures i in f
      {
        assert i in all;
        assert i !in rest;
      }
    }
    if |f| < n {
      assert |rest| > 0;
      var i :| i in rest;
      assert i < n && i !in f;
    }
  }

  lemma StartedConsistent(n: nat, processing: bool)
    ensures Consistent(Started(n, processing))
  {
  }

  /** The end of the game appends the single missing seat last. */
  lemma EndGameAppendsSurvivor(s: GameState)
    requires Distinct(s.finished) && Seats(s.finished, |s.positions|)
    requires |s.finished| + 1 == |s.positions|
    ensures exists last :: 0 <= last < |s.positions| && last !in s.finished &&
              EndGame(s).finished == s.finished + [last]
    ensures Distinct(EndGame(s).finished) && |EndGame(s).finished| == |s.positions|
  {
    SeatCount(s.finished, |s.positions|);
  }

  lemma {:induction false} FinishStepConsistent(s: GameState, roll: int, b: Topology)
    requires Consistent(s) && Idle(s)
    requires MovedPosition(s.positions[s.current], roll) == Finish
    ensures Consistent(HandleRoll(s, roll, b))
  {
    var n := |s.positions|;
    var p := s.current;
    var f1 := s.finished + [p];
    assert Distinct(f1) && Seats(f1, n);
    var s1 := s.(positions := s.positions[p := Finish], processing := true, finished := f1);
    var r := HandleRoll(s, roll, b);
    if |f1| >= n - 1 {
      assert r == EndGame(s1);
      if |f1| + 1 == n {
        EndGameAppendsSurvivor(s1);
      } else {
        // a single player finishing alone at the table
        SeatCount(f1, n);
        assert |f1| == n;
        assert r.finished == f1;
      }
    } else {
      SeatCount(f1, n);
      NextTurnIndexFindsUnfinished(f1, p, n);
    }
  }

  lemma {:induction false} OtherStepConsistent(s: GameState, roll: int, b: Topology)
    requires Consistent(s) && Idle(s)
    requires MovedPosition(s.positions[s.current], roll) != Finish
    ensures Consistent(HandleRoll(s, roll, b))
  {
    if roll != 6 {
      NextTurnIndexFindsUnfinished(s.finished, s.current, |s.positions|);
    }
  }

  /** Every roll keeps the invariant, so it holds in every state reached from `start`. */
  lemma HandleRollConsistent(s: GameState, roll: int, b: Topology)
    requires Consistent(s)
    ensures Consistent(HandleRoll(s, roll, b))
  {
    if Idle(s) {
      if MovedPosition(s.positions[s.current], roll) == Finish {
        FinishStepConsistent(s, roll, b);
      } else {
        OtherStepConsistent(s, roll, b);
      }
    }
  }

  /** The defensive guard of `processTurn` is never taken in a reachable state. */
  lemma CurrentPlayerNeverFinished(s: GameState)
    requires Consistent(s) && Idle(s)
    ensures s.current !in s.finished
  {
  }

  /** Final standings: once the game is over the finish order is a duplicate-free permutation of all seats. */
  lemma FinalStandings(s: GameState)
    requires Consistent(s) && s.ended
    ensures |s.finished| == |s.positions| && Distinct(s.finished)
    ensures forall i :: 0 <= i < |s.positions| <==> i in s.finished
  {
    SeatCount(s.finished, |s.positions|);
  }

  // ------------------------------------------------------- staying on the board

  predicate OnBoard(s: GameState)
  {
    forall i :: 0 <= i < |s.positions| ==> 1 <= s.positions[i] <= Finish
  }

  lemma MovedPositionOnBoard(start: int, roll: int)
    requires 1 <= start <= Finish && 1 <= roll <= 6
    ensures 2 <= MovedPosition(start, roll) <= Finish
  {
    MovedPositionLaw(start, roll);
  }

  lemma HandleRollOnBoard(s: GameState, roll: int, b: Topology)
    requires WellFormed(b) && OnBoard(s) && 1 <= roll <= 6
    ensures OnBoard(HandleRoll(s, roll, b))
  {
    if Idle(s) && s.current !in s.finished {
      var moved := MovedPosition(s.positions[s.current], roll);
      MovedPositionOnBoard(s.positions[s.current], roll);
      TransportOnWellFormed(b, moved);
    }
  }

  // ------------------------------------------------- quirks of the default board

  /** The ladder at 80 lands on 100 without finishing: the finish check has already run. */
  lemma LadderToFinishDoesNotFinish(s: GameState, roll: int)
    requires Idle(s) && s.current !in s.finished
    requires MovedPosition(s.positions[s.current], roll) == 80
    ensures var r := HandleRoll(s, roll, DefaultBoard);
      r.positions[s.current] == Finish && s.current !in r.finished && !r.ended
  {
  }

  /** From 100 there are no forward steps: the next roll bounces straight back to `100 - roll`. */
  lemma BounceFromFinish(roll: int)
    requires 1 <= roll <= 6
    ensures MovedPosition(Finish, roll) == Finish - roll
  {
  }

  /** The ladder at cell 1 never fires: a move from the board never ends on cell 1. */
  lemma LadderAtOneNeverFires(s: GameState, roll: int)
    requires Idle(s) && OnBoard(s) && 1 <= roll <= 6 && s.current !in s.finished
    ensures MovedPosition(s.positions[s.current], roll) != 1
  {
    MovedPositionOnBoard(s.positions[s.current], roll);
  }
}
