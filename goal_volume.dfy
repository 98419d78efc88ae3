/**
  The scoring volume of the goal: a fixed axis-aligned box, open on every
  face, tested once per frame against the ball's position (metres).
 */
module GoalVolume {

  /** A point in the scene, as reported by the physics host. */
  datatype Vec3 = Vec3(x: real, y: real, z: real)

  // Bounds of the goal mouth. There is no lower bound on y: the turf stops the ball.
  const MaxY: real := 1.83
  const MinX: real := -0.91
  const MaxX: real := 0.91
  const MinZ: real := -0.02
  const MaxZ: real := 2.0

  /** The per-frame goal test: every comparison is strict. */
  predicate InGoal(p: Vec3)
  {
    p.y < MaxY && p.x > MinX && p.x < MaxX && p.z > MinZ && p.z < MaxZ
  }

  /**
    The goal test, with the bounds written out: scored exactly when y is below
    1.83, x lies strictly between -0.91 and 0.91 and z strictly between -0.02 and 2.0.
   */
  lemma InGoalIff(p: Vec3)
    ensures InGoal(p) <==> p.y < 1.83 && -0.91 < p.x < 0.91 && -0.02 < p.z < 2.0
  {
  }

  /** A ball lying on any face of the box has not scored. */
  lemma BoundaryMisses(p: Vec3)
    requires p.x == MinX || p.x == MaxX || p.y == MaxY || p.z == MinZ || p.z == MaxZ
    ensures !InGoal(p)
  {
  }

  /** The point the ball is aimed at when it is shot scores. */
  lemma AimPointScores()
    ensures InGoal(Vec3(0.0, 1.2, 1.0))
  {
  }

  /** A ball two metres to the side of the goal's centre line does not score. */
  lemma WideShotMisses()
    ensures !InGoal(Vec3(2.0, 1.2, 1.0))
  {
  }
}
