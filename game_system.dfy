/**
  The game loop as the program runs it: the closure variables are fields, the
  per-frame system update and the deferred respawn callbacks are methods that
  change them in place, and the scoreboard is redrawn wherever the program
  redraws it. Each method is proved to do what `GameLoop.Tick` or
  `GameLoop.Fire` say, so every lemma about those carries over.
 */
module GameSystem {
  import opened GoalVolume
  import opened Scoreboard
  import opened GameLoop

  class GoalLoop {
    var ballEntity: Option<Ball>
    var sphereExists: bool
    var gameOver: bool
    var score: nat
    /** Timers set and not yet run; nothing ever cancels one. */
    var pending: seq<Timer>
    /** What the scoreboard canvas currently shows. */
    var board: Board

    /** The fields as a `GameLoop.State` value. */
    function Snapshot(): State
      reads this
    {
      State(ballEntity, sphereExists, gameOver, score, pending)
    }

    /** The loop invariant, and a scoreboard showing the current flag and score. */
    ghost predicate Valid()
      reads this
    {
      Inv(Snapshot()) && board == Render(gameOver, score)
    }

    /**
      Start-up at time `start`: no ball, score 0, the first ball due five
      seconds later, and the board drawn once.
     */
    constructor (start: real)
      ensures Valid()
      ensures Snapshot() == Init(start)
      ensures board == Board("NO GOALS ALLOWED", "Score: 0")
    {
      ballEntity := None;
      sphereExists := false;
      gameOver := false;
      pending := [Timer(FirstBall, start + FirstBallDelay)];
      score := 0;
      // The canvas first gets the bare score text, then is redrawn in full.
      board := Board("", "Score: 0");
      new;
      board := Render(gameOver, score);
      InitInv(start);
    }

    /**
      One frame at time `now` with the ball at `pos`: does nothing once the game
      is over or without a ball; discards a ball older than the timeout; on a
      goal scores, redraws, may end the game, and discards the ball.
     */
    method Update(now: real, pos: Vec3)
      requires Valid()
      modifies this
      ensures Valid()
      ensures Snapshot() == Tick(old(Snapshot()), now, pos)
      ensures old(score) <= score <= old(score) + 1
      ensures old(gameOver) ==> unchanged(this)
    {
      ghost var s := Snapshot();
      TickInv(s, now, pos);
      if gameOver {
        return;
      }
      if !sphereExists || ballEntity.None? {
        return;
      }
      if now - ballEntity.value.shotTime > ShotTimeout {
        sphereExists := false;
        ballEntity := None;
        pending := pending + [Timer(AfterTimeout, now + RespawnAfterTimeout)];
        return;
      }
      if InGoal(pos) {
        score := score + 1;
        board := Render(gameOver, score);
        if score >= GoalLimit {
          gameOver := true;
          board := Render(gameOver, score);
        }
        sphereExists := false;
        ballEntity := None;
        pending := pending + [Timer(AfterGoal, now + RespawnAfterGoal)];
        return;
      }
    }

    /**
      The event loop at time `now` runs the oldest due timer, if any: it creates
      a ball shot at `now`, except that the post-goal callback does nothing once
      the game is over. The board is not redrawn.
     */
    method FireTimer(now: real)
      requires Valid()
      modifies this
      ensures Valid()
      ensures Snapshot() == Fire(old(Snapshot()), now)
      ensures board == old(board)
      ensures old(gameOver) ==> ballEntity.None? && !sphereExists
    {
      ghost var s := Snapshot();
      FireInv(s, now);
      if gameOver {
        FireAfterGameOver(s, now);
      }
      if pending == [] || pending[0].due > now {
        return;
      }
      var t := pending[0];
      pending := pending[1..];
      if t.callback == AfterGoal && gameOver {
        return;
      }
      ballEntity := Some(Ball(now));
      sphereExists := true;
    }
  }
}
