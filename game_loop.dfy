/**
  The goal / timeout / respawn state machine as values: the state of the game
  loop, one frame of the loop (`Tick`), one deferred respawn callback (`Fire`),
  the invariant they keep, and what holds along any interleaving of frames
  and callbacks.
 */
module GameLoop {
  import opened GoalVolume

  datatype Option<T> = None | Some(value: T)

  // Durations in milliseconds, and the number of goals that ends the game.
  const FirstBallDelay: real := 5000.0
  const ShotTimeout: real := 4000.0
  const RespawnAfterTimeout: real := 3000.0
  const RespawnAfterGoal: real := 2500.0
  const GoalLimit: nat := 5

  /** The live ball; only its launch time matters to the loop. */
  datatype Ball = Ball(shotTime: real)

  /** Which deferred callback a timer runs. */
  datatype Respawn =
    | FirstBall     // scheduled once at start-up
    | AfterTimeout  // scheduled when a shot times out
    | AfterGoal     // scheduled after a goal; does nothing once the game is over

  /** A scheduled, never-cancelled timer. */
  datatype Timer = Timer(callback: Respawn, due: real)

  /** The loop's variables, and the timers still waiting to run. */
  datatype State = State(
    ballEntity: Option<Ball>,
    sphereExists: bool,
    gameOver: bool,
    score: nat,
    pending: seq<Timer>)

  /** The state right after start-up at time `start`: no ball, one ball due in five seconds. */
  function Init(start: real): State
  {
    State(None, false, false, 0, [Timer(FirstBall, start + FirstBallDelay)])
  }

  /** A ball is in flight: both the flag and the entity reference are set. */
  predicate InFlight(s: State)
  {
    s.sphereExists && s.ballEntity.Some?
  }

  /** One frame of the game loop at time `now`, with the ball at `pos`. */
  function Tick(s: State, now: real, pos: Vec3): State
  {
    if s.gameOver then s
    else if !InFlight(s) then s
    else if now - s.ballEntity.value.shotTime > ShotTimeout then
      s.(sphereExists := false, ballEntity := None,
         pending := s.pending + [Timer(AfterTimeout, now + RespawnAfterTimeout)])
    else if InGoal(pos) then
      var score := s.score + 1;
      s.(score := score, gameOver := s.gameOver || score >= GoalLimit,
         sphereExists := false, ballEntity := None,
         pending := s.pending + [Timer(AfterGoal, now + RespawnAfterGoal)])
    else s
  }

  /** The event loop at time `now`: runs the oldest pending timer if it is due. */
  function Fire(s: State, now: real): State
  {
    if s.pending == [] || s.pending[0].due > now then s
    else
      var t, rest := s.pending[0], s.pending[1..];
      if t.callback == AfterGoal && s.gameOver then s.(pending := rest)
      else s.(ballEntity := Some(Ball(now)), sphereExists := true, pending := rest)
  }

  /**
    The invariant of the loop: the flag and the reference agree; there is a
    ball in flight or a respawn pending, never both, and exactly one while the
    game goes on; the score never passes the limit and the game is over exactly
    when it reaches it; after that only the no-op post-goal callback can be left.
   */
  predicate Inv(s: State)
  {
    && (s.sphereExists <==> s.ballEntity.Some?)
    && |s.pending| <= 1
    && (s.ballEntity.Some? ==> s.pending == [])
    && (!s.gameOver ==> s.ballEntity.Some? || |s.pending| == 1)
    && s.score <= GoalLimit
    && (s.gameOver <==> s.score == GoalLimit)
    && (s.gameOver ==> s.ballEntity.None? && forall t | t in s.pending :: t.callback == AfterGoal)
  }

  lemma InitInv(start: real)
    ensures Inv(Init(start))
    ensures Init(start).score == 0 && !Init(start).gameOver && !InFlight(Init(start))
    ensures Init(start).pending == [Timer(FirstBall, start + 5000.0)]
  {
  }

  /** Once the game is over a frame changes nothing. */
  lemma TickWhenOver(s: State, now: real, pos: Vec3)
    requires s.gameOver
    ensures Tick(s, now, pos) == s
  {
  }

  /** Without a ball in flight a frame changes nothing. */
  lemma TickWithoutBall(s: State, now: real, pos: Vec3)
    requires !InFlight(s)
    ensures Tick(s, now, pos) == s
  {
  }

  /**
    A shot older than the timeout is discarded whatever its position: the goal
    test is not made, score and flag stay, and a respawn is due in three seconds.
   */
  lemma TimeoutBeforeGoal(s: State, now: real, pos: Vec3)
    requires !s.gameOver && InFlight(s)
    requires now - s.ballEntity.value.shotTime > ShotTimeout
    ensures var r := Tick(s, now, pos);
      && r.score == s.score && !r.gameOver
      && !InFlight(r) && r.ballEntity.None? && !r.sphereExists
      && r.pending == s.pending + [Timer(AfterTimeout, now + RespawnAfterTimeout)]
    ensures forall other: Vec3 :: Tick(s, now, other) == Tick(s, now, pos)
  {
  }

  /**
    A goal adds exactly one to the score, removes the ball, ends the game exactly
    when the score reaches the limit, and schedules the post-goal respawn.
   */
  lemma GoalScored(s: State, now: real, pos: Vec3)
    requires !s.gameOver && InFlight(s)
    requires now - s.ballEntity.value.shotTime <= ShotTimeout
    requires InGoal(pos)
    ensures var r := Tick(s, now, pos);
      && r.score == s.score + 1
      && (r.gameOver <==> r.score >= GoalLimit)
      && r.ballEntity.None? && !r.sphereExists
      && r.pending == s.pending + [Timer(AfterGoal, now + RespawnAfterGoal)]
  {
  }

  /** A ball still in time and outside the goal leaves the state as it was. */
  lemma MissChangesNothing(s: State, now: real, pos: Vec3)
    requires InFlight(s) ==> now - s.ballEntity.value.shotTime <= ShotTimeout
    requires !InGoal(pos)
    ensures Tick(s, now, pos) == s
  {
  }

  /** A frame moves the score by zero or one, and never clears the game-over flag. */
  lemma TickScoreStep(s: State, now: real, pos: Vec3)
    ensures var r := Tick(s, now, pos);
      && (r.score == s.score || r.score == s.score + 1)
      && (s.gameOver ==> r.gameOver)
  {
  }

  /** The game ends in a frame exactly when a goal brings the score to the limit. */
  lemma TickEndsGameIff(s: State, now: real, pos: Vec3)
    requires Inv(s)
    ensures var r := Tick(s, now, pos);
      (!s.gameOver && r.gameOver) <==> (r.score == s.score + 1 && r.score == GoalLimit)
  {
  }

  /** A timer callback never touches the score or the game-over flag. */
  lemma FireKeepsScore(s: State, now: real)
    ensures Fire(s, now).score == s.score && Fire(s, now).gameOver == s.gameOver
  {
  }

  /**
    A due callback that is not the post-goal one after game over creates a ball
    shot at the current time, and that timer is gone.
   */
  lemma FireRespawns(s: State, now: real)
    requires s.pending != [] && s.pending[0].due <= now
    requires !(s.pending[0].callback == AfterGoal && s.gameOver)
    ensures var r := Fire(s, now);
      && InFlight(r) && r.ballEntity.value.shotTime == now
      && r.pending == s.pending[1..]
  {
  }

  /** Before its delay has elapsed a timer has no effect. */
  lemma FireNotDue(s: State, now: real)
    requires s.pending == [] || s.pending[0].due > now
    ensures Fire(s, now) == s
  {
  }

  /** Once the game is over no callback brings a ball back. */
  lemma FireAfterGameOver(s: State, now: real)
    requires Inv(s) && s.gameOver
    ensures Fire(s, now).ballEntity.None? && !Fire(s, now).sphereExists
  {
  }

  lemma TickInv(s: State, now: real, pos: Vec3)
    requires Inv(s)
    ensures Inv(Tick(s, now, pos))
  {
  }

  lemma FireInv(s: State, now: real)
    requires Inv(s)
    ensures Inv(Fire(s, now))
  {
  }

  /** What the host can do next: run a frame, or run a due timer. */
  datatype Event = Frame(now: real, pos: Vec3) | TimerDue(now: real)

  function Step(s: State, e: Event): State
  {
    match e
    case Frame(now, pos) => Tick(s, now, pos)
    case TimerDue(now) => Fire(s, now)
  }

  /** The state after a sequence of frames and callbacks, in order. */
  function Run(s: State, events: seq<Event>): State
    decreases |events|
  {
    if events == [] then s else Run(Step(s, events[0]), events[1..])
  }

  lemma StepInv(s: State, e: Event)
    requires Inv(s)
    ensures Inv(Step(s, e))
  {
    match e
    case Frame(now, pos) => TickInv(s, now, pos);
    case TimerDue(now) => FireInv(s, now);
  }

  /** Every interleaving of frames and callbacks keeps the invariant. */
  lemma {:induction false} RunInv(s: State, events: seq<Event>)
    requires Inv(s)
    ensures Inv(Run(s, events))
    decreases |events|
  {
    if events != [] {
      StepInv(s, events[0]);
      RunInv(Step(s, events[0]), events[1..]);
    }
  }

  /** The score never goes down, and a game that is over stays over. */
  lemma {:induction false} RunMonotone(s: State, events: seq<Event>)
    ensures Run(s, events).score >= s.score
    ensures s.gameOver ==> Run(s, events).gameOver
    decreases |events|
  {
    if events != [] {
      var e := events[0];
      match e {
        case Frame(now, pos) => TickScoreStep(s, now, pos);
        case TimerDue(now) => FireKeepsScore(s, now);
      }
      RunMonotone(Step(s, e), events[1..]);
    }
  }

  /** From start-up, whatever happens, the score stays within the limit. */
  lemma RunFromInitBounded(start: real, events: seq<Event>)
    ensures var r := Run(Init(start), events);
      r.score <= GoalLimit && (r.gameOver <==> r.score == GoalLimit)
      && !(InFlight(r) && r.pending != [])
  {
    InitInv(start);
    RunInv(Init(start), events);
  }

  /** After game over nothing changes any more and no ball ever appears again. */
  lemma {:induction false} RunAfterGameOver(s: State, events: seq<Event>)
    requires Inv(s) && s.gameOver
    ensures var r := Run(s, events);
      && r.gameOver && r.score == s.score
      && r.ballEntity.None? && !r.sphereExists
    decreases |events|
  {
    if events != [] {
      var e := events[0];
      StepInv(s, e);
      match e {
        case Frame(now, pos) => TickWhenOver(s, now, pos);
        case TimerDue(now) => FireAfterGameOver(s, now); FireKeepsScore(s, now);
      }
      RunAfterGameOver(Step(s, e), events[1..]);
    }
  }
}
