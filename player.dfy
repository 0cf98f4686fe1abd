/**
 *  A player token's position and the step-by-step `move` that caps at the
 *  final cell: a step taken below 100 goes up by one, a step taken at 100
 *  bounces to 99.
 */
module Players {

  const Finish := 100

  /** One iteration of the `move` loop. */
  function Step(p: int): (r: int)
    ensures p <= Finish ==> r <= Finish
    ensures 1 <= p <= Finish ==> 1 <= r && (r == p + 1 || r == p - 1)
  {
    if p < Finish then p + 1 else Finish - (p + 1 - Finish)
  }

  /** The position after `steps` iterations of the `move` loop (none when `steps <= 0`). */
  function Walk(p: int, steps: int): (r: int)
    ensures p <= Finish ==> r <= Finish
    ensures 1 <= p <= Finish ==> 1 <= r
    decreases steps
  {
    if steps <= 0 then p else Walk(Step(p), steps - 1)
  }

  /**
   *  Closed form of the loop from a cell on the board: it climbs one cell per
   *  step up to 100, and past 100 it alternates between 99 and 100.
   */
  lemma {:induction false} WalkClosedForm(p: int, k: nat)
    requires p <= Finish
    ensures Walk(p, k) == if p + k <= Finish then p + k else Finish - (p + k - Finish) % 2
    decreases k
  {
    if k > 0 {
      if p < Finish {
        WalkClosedForm(p + 1, k - 1);
      } else {
        WalkClosedForm(Finish - 1, k - 1);
      }
    }
  }

  /** Without overshoot the loop lands exactly `k` cells further on. */
  lemma WalkExact(p: int, k: nat)
    requires p + k <= Finish
    ensures Walk(p, k) == p + k
  {
    WalkClosedForm(p, k);
  }

  /** The loop never takes a position on the board above 100, nor below where it started. */
  lemma WalkStaysOnBoard(p: int, k: int)
    requires 1 <= p <= Finish
    ensures (if p < Finish - 1 then p else Finish - 1) <= Walk(p, k) <= Finish
  {
    if k > 0 {
      WalkClosedForm(p, k);
    }
  }

  /** A step taken while on the final cell goes back to 99. */
  lemma StepAtFinish()
    ensures Walk(Finish, 1) == Finish - 1
  {
  }

  class Player {
    const id: nat
    const name: string
    var position: int

    constructor (id: nat, name: string)
      ensures this.id == id && this.name == name
      ensures position == 1
    {
      this.id := id;
      this.name := name;
      position := 1;
    }

    /** Moves `steps` cells one at a time, as the token animation does. */
    method Move(steps: int)
      modifies this
      ensures position == Walk(old(position), steps)
    {
      var i := 0;
      while i < steps
        invariant 0 <= i && (steps >= 0 ==> i <= steps)
        invariant Walk(position, steps - i) == Walk(old(position), steps)
      {
        if position < Finish {
          position := position + 1;
        } else {
          position := Finish - (position + 1 - Finish);
        }
        i := i + 1;
      }
    }

    /** Jumps to a cell (a snake or ladder transport). */
    method MoveTo(targetPos: int)
      modifies this
      ensures position == targetPos
    {
      position := targetPos;
    }

    method SetPosition(pos: int)
      modifies this
      ensures position == pos
    {
      position := pos;
    }
  }
}
