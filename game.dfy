/**
 *  The `Game` object: the seating order, the finish order, the current
 *  seat and the two guard flags, updated in place by `start`, `handleRoll`
 *  and the steps of a turn. Each method is proved to move the state exactly
 *  as the turn engine in module Turn says; sounds, UI updates and sleeps
 *  are presentation and have no counterpart here.
 */
module Game {

  import opened Options
  import opened Board
  import opened Players
  import Turn

  /** The position of every player, by seat. */
  function PositionsOf(ps: seq<Player>): (r: seq<int>)
    reads set k | 0 <= k < |ps| :: ps[k]
    ensures |r| == |ps| && forall i :: 0 <= i < |ps| ==> r[i] == ps[i].position
  {
    seq(|ps|, i reads set k | 0 <= k < |ps| :: ps[k] => if 0 <= i < |ps| then ps[i].position else 0)
  }

  class Game {
    const board: Topology
    var players: seq<Player>
    var finishedPlayers: seq<nat>
    var currentPlayerIndex: nat
    var isProcessingTurn: bool
    var gameEnded: bool

    /** Every seat holds its own player object, whose id is the seat number. */
    ghost predicate Valid()
      reads this, set i | 0 <= i < |players| :: players[i]
    {
      (forall i, j :: 0 <= i < j < |players| ==> players[i] != players[j]) &&
      (forall i :: 0 <= i < |players| ==> players[i].id == i)
    }

    ghost function Snapshot(): Turn.GameState
      reads this, set i | 0 <= i < |players| :: players[i]
    {
      Turn.GameState(PositionsOf(players), finishedPlayers, currentPlayerIndex, isProcessingTurn, gameEnded)
    }

    constructor (board: Topology)
      ensures this.board == board && Valid() && players == []
      ensures Snapshot() == Turn.GameState([], [], 0, false, false)
    {
      this.board := board;
      players := [];
      finishedPlayers := [];
      currentPlayerIndex := 0;
      isProcessingTurn := false;
      gameEnded := false;
    }

    /** Seats one fresh player per name, all on cell 1, and resets the finish order and turn. */
    method Start(playerNames: seq<string>)
      modifies this
      ensures Valid() && |players| == |playerNames|
      ensures forall i :: 0 <= i < |players| ==> fresh(players[i]) && players[i].name == playerNames[i]
      ensures Snapshot() == Turn.Started(|playerNames|, old(isProcessingTurn))
    {
      var ps: seq<Player> := [];
      var i := 0;
      while i < |playerNames|
        invariant 0 <= i <= |playerNames| && |ps| == i
        invariant forall k :: 0 <= k < i ==>
          fresh(ps[k]) && ps[k].id == k && ps[k].name == playerNames[k] && ps[k].position == 1
        invariant forall k, j :: 0 <= k < j < i ==> ps[k] != ps[j]
        invariant isProcessingTurn == old(isProcessingTurn)
      {
        var player := new Player(i, playerNames[i]);
        ps := ps + [player];
        i := i + 1;
      }
      players := ps;
      finishedPlayers := [];
      gameEnded := false;
      currentPlayerIndex := 0;
      assert forall k :: 0 <= k < |playerNames| ==> Turn.Started(|playerNames|, isProcessingTurn).positions[k] == 1;
      assert PositionsOf(players) == Turn.Started(|playerNames|, isProcessingTurn).positions;
    }

    /** `players[currentPlayerIndex]`, which is `undefined` past the end of the seating. */
    function GetCurrentPlayer(): (p: Option<Player>)
      reads this
      ensures p.Some? <==> currentPlayerIndex < |players|
      ensures p.Some? ==> p.value == players[currentPlayerIndex]
    {
      if currentPlayerIndex < |players| then Some(players[currentPlayerIndex]) else None
    }

    /** One click of the roll button, with the die showing `roll`. */
    method HandleRoll(roll: int)
      requires Valid() && 1 <= roll <= 6
      modifies this, set i | 0 <= i < |players| :: players[i]
      ensures Valid() && players == old(players)
      ensures Snapshot() == Turn.HandleRoll(old(Snapshot()), roll, board)
    {
      if isProcessingTurn || gameEnded {
        return;
      }
      isProcessingTurn := true;
      ProcessTurn(roll);
    }

    method ProcessTurn(roll: int)
      requires Valid()
      modifies this, set i | 0 <= i < |players| :: players[i]
      ensures Valid() && players == old(players)
      ensures Snapshot() == Turn.ProcessTurn(old(Snapshot()), roll, board)
    {
      ghost var s := Snapshot();
      var current := GetCurrentPlayer();
      if current.None? {
        // reading the position of `undefined` throws: the turn is abandoned
        return;
      }
      var p := currentPlayerIndex;

      // A finished player never moves again
      if p in finishedPlayers {
        NextTurn();
        isProcessingTurn := false;
        return;
      }

      // 1. Movement
      ghost var moved := Turn.MovedPosition(s.positions[p], roll);
      MovePlayer(p, roll);
      ghost var s1 := s.(positions := s.positions[p := moved]);
      assert Snapshot() == s1;

      // 2. Finish, or 3. at most one snake or ladder
      if players[p].position == Finish {
        var rank := HandlePlayerFinish(p);
        assert Snapshot() == Turn.HandlePlayerFinish(s1, p);
        if gameEnded {
          return;
        }
      } else {
        CheckEntityInteractions(p);
        assert Snapshot() == s.(positions := s.positions[p := Turn.ApplyTransport(board, moved)]);
      }

      // 5. Next turn
      AdvanceTurn(p, roll);
    }

    /** Step 5 of `processTurn`: a 6 gives a bonus turn unless the player has just finished. */
    method AdvanceTurn(p: nat, roll: int)
      requires |players| > 0
      modifies this`currentPlayerIndex, this`isProcessingTurn
      ensures Snapshot() == Turn.AdvanceTurn(old(Snapshot()), p, roll)
    {
      if !gameEnded {
        var playerFinished := p in finishedPlayers;
        if !(roll == 6 && !playerFinished) {
          NextTurn();
        }
      }
      isProcessingTurn := false;
    }

    /** The movement of `processTurn`: step by step, bouncing back from 100 by the excess. */
    method MovePlayer(p: nat, roll: int)
      requires Valid() && p < |players|
      modifies players[p]
      ensures Snapshot() == old(Snapshot()).(positions := old(Snapshot()).positions[p := Turn.MovedPosition(old(players[p].position), roll)])
    {
      var player := players[p];
      var startPos := player.position;
      var targetPos := startPos + roll;
      if targetPos > Finish {
        var overshoot := targetPos - Finish;
        var forwardSteps := Finish - startPos;
        player.Move(forwardSteps);
        player.position := Finish;
        player.position := Finish - overshoot;
      } else {
        player.Move(roll);
      }
    }

    /** Passes the turn to the next seat, skipping finished players for at most one lap. */
    method NextTurn()
      requires |players| > 0
      modifies this`currentPlayerIndex
      ensures currentPlayerIndex == Turn.NextTurnIndex(finishedPlayers, old(currentPlayerIndex), |players|)
    {
      var total := |players|;
      var nextIndex: nat := (currentPlayerIndex + 1) % total;
      var loops := 0;
      while nextIndex in finishedPlayers && loops < total
        invariant 0 <= loops <= total && nextIndex < total
        invariant Turn.Scan(finishedPlayers, nextIndex, loops, total) ==
                  Turn.NextTurnIndex(finishedPlayers, currentPlayerIndex, total)
        decreases total - loops
      {
        nextIndex := (nextIndex + 1) % total;
        loops := loops + 1;
      }
      currentPlayerIndex := nextIndex;
    }

    /** Applies the snake whose head, or else the ladder whose bottom, is the player's cell. */
    method CheckEntityInteractions(p: nat)
      requires Valid() && p < |players|
      modifies players[p]
      ensures Snapshot() == old(Snapshot()).(positions := old(Snapshot()).positions[p := Turn.ApplyTransport(board, old(players[p].position))])
    {
      var player := players[p];
      var snakeTail := Lookup(board.snakes, player.position);
      var ladderTop := Lookup(board.ladders, player.position);
      if snakeTail.Some? {
        player.MoveTo(snakeTail.value);
      } else if ladderTop.Some? {
        player.MoveTo(ladderTop.value);
      }
    }

    /** Appends seat `p` to the finish order; ends the game once at most one player is left. */
    method HandlePlayerFinish(p: nat) returns (rank: nat)
      modifies this`finishedPlayers, this`gameEnded
      ensures rank == |old(finishedPlayers)| + 1
      ensures Snapshot() == Turn.HandlePlayerFinish(old(Snapshot()), p)
    {
      finishedPlayers := finishedPlayers + [p];
      rank := |finishedPlayers|;
      var isFinalRound := |finishedPlayers| >= |players| - 1;
      if isFinalRound {
        EndGame();
      }
      // otherwise the rank modal is shown and acknowledged before play resumes
    }

    /** Marks the game over and appends the one player left, if any, as last place. */
    method EndGame()
      modifies this`finishedPlayers, this`gameEnded
      ensures Snapshot() == Turn.EndGame(old(Snapshot()))
    {
      gameEnded := true;
      var lastPlayer := Turn.FirstUnfinished(finishedPlayers, 0, |players|);
      if lastPlayer.Some? {
        finishedPlayers := finishedPlayers + [lastPlayer.value];
      }
    }
  }
}
