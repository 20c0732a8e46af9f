/** The ball simulation: one ball inside a circular arena, advanced by semi-implicit Euler
    steps and reflected off the arena wall, and the ball-per-pixel population of a scene. */
module Simulation {
  import opened RealOps
  import opened Geometry
  import Raster

  /** Gravitational acceleration and the fixed time step of every scene. */
  const G: real := 9.8
  const TIME_STEP: real := 0.1

  /** The mutable kinematic part of a simulation: the ball's centre and its velocity. */
  datatype Motion = Motion(center: Vec2, velocity: Vec2)

  function DistanceSquared(p: Vec2, q: Vec2): real
  {
    Square(p.x - q.x) + Square(p.y - q.y)
  }

  /** The first phase of `update`: the velocity takes the acceleration, then the centre moves
      with the NEW velocity (semi-implicit Euler). */
  function Euler(m: Motion, acceleration: Vec2, dt: real): (r: Motion)
    ensures r.velocity.x - m.velocity.x == acceleration.x * dt
    ensures r.velocity.y - m.velocity.y == acceleration.y * dt
    ensures r.center.x - m.center.x == r.velocity.x * dt
    ensures r.center.y - m.center.y == r.velocity.y * dt
  {
    var v := Vec2(m.velocity.x + acceleration.x * dt, m.velocity.y + acceleration.y * dt);
    Motion(Vec2(m.center.x + v.x * dt, m.center.y + v.y * dt), v)
  }

  /** Dividing a vector by its (positive) length gives a unit vector. */
  lemma UnitNormal(offset: Vec2, distance: real, distanceSquared: real)
    requires distanceSquared > 0.0 && distance >= 0.0 && distance * distance == distanceSquared
    requires offset.x * offset.x + offset.y * offset.y == distanceSquared
    ensures distance > 0.0
    ensures Dot(Vec2(offset.x / distance, offset.y / distance), Vec2(offset.x / distance, offset.y / distance)) == 1.0
  {
    var nx, ny := offset.x / distance, offset.y / distance;
    assert nx * distance == offset.x && ny * distance == offset.y;
    ScaledSquare(nx, distance, distanceSquared, offset.x);
    ScaledSquare(ny, distance, distanceSquared, offset.y);
    SharesSum(nx * nx, ny * ny, distanceSquared, offset.x * offset.x, offset.y * offset.y);
  }

  /** Moving `k` along a unit vector from `origin` lands at squared distance `k * k`. */
  lemma AlongUnit(origin: Vec2, n: Vec2, k: real)
    requires Dot(n, n) == 1.0
    ensures DistanceSquared(Vec2(origin.x + k * n.x, origin.y + k * n.y), origin) == k * k
  {
    assert Square(k * n.x) + Square(k * n.y) == k * k * Dot(n, n);
  }

  /** The correction branch of `update`, for an outward offset of positive length `distance`:
      the centre moved `limit` along the unit normal lands on the limit circle, on the line of
      the offset (on its side for a non-negative `limit`, opposite it for a negative one), and
      the reflected velocity keeps its speed and its tangential component
      while its component along the offset changes sign. */
  lemma Bounce(origin: Vec2, offset: Vec2, distance: real, distanceSquared: real, limit: real, v: Vec2)
    requires distanceSquared > 0.0 && distance >= 0.0 && distance * distance == distanceSquared
    requires offset.x * offset.x + offset.y * offset.y == distanceSquared
    ensures var normal := Vec2(offset.x / distance, offset.y / distance);
      var p := Vec2(origin.x + limit * normal.x, origin.y + limit * normal.y);
      var w := Reflect(v, normal);
      var tangent := Vec2(-offset.y, offset.x);
      DistanceSquared(p, origin) == limit * limit &&
      Dot(w, w) == Dot(v, v) &&
      Dot(w, offset) == -Dot(v, offset) &&
      Dot(w, tangent) == Dot(v, tangent) &&
      (p.x - origin.x) * offset.y == (p.y - origin.y) * offset.x &&
      (limit >= 0.0 ==> Dot(Vec2(p.x - origin.x, p.y - origin.y), offset) >= 0.0) &&
      (limit < 0.0 ==> Dot(Vec2(p.x - origin.x, p.y - origin.y), offset) <= 0.0)
  {
    UnitNormal(offset, distance, distanceSquared);
    var normal := Vec2(offset.x / distance, offset.y / distance);
    var w := Reflect(v, normal);
    AlongUnit(origin, normal, limit);
    assert offset == Vec2(distance * normal.x, distance * normal.y);
    DotScaled(w, normal, distance);
    DotScaled(v, normal, distance);
    var tangent := Vec2(-offset.y, offset.x);
    assert tangent == Vec2(distance * -normal.y, distance * normal.x);
    DotScaled(normal, Vec2(-normal.y, normal.x), distance);
    DotSymmetric(normal, tangent);
    ReflectKeepsTangent(v, normal, tangent);
    var p := Vec2(origin.x + limit * normal.x, origin.y + limit * normal.y);
    var landing := Vec2(p.x - origin.x, p.y - origin.y);
    assert landing == Vec2(limit * normal.x, limit * normal.y);
    DotScaled(offset, normal, limit);
    DotScaled(normal, normal, distance);
    DotSymmetric(offset, normal);
    DotSymmetric(landing, offset);
    if limit >= 0.0 {
      NonNegativeProduct(limit, distance);
    } else {
      NonNegativeProduct(-limit, distance);
    }
  }

  /** One call of `BallSimulation::update` on the ball's motion, for an arena and a ball
      radius that it never changes. When the Euler phase leaves the ball farther from the arena
      centre than `arena.radius - ballRadius` (strictly), the velocity is reflected about the
      outward normal and the centre is put back on the limit circle; otherwise the Euler
      result stands. The ball always ends within the limit circle. */
  function Step(arena: Circle, ballRadius: real, m: Motion, acceleration: Vec2, dt: real,
                sqrt: real -> real): (r: Motion)
    requires IsSqrt(sqrt)
    ensures DistanceSquared(r.center, arena.center) <= Square(arena.radius - ballRadius)
    ensures var e := Euler(m, acceleration, dt);
      DistanceSquared(e.center, arena.center) <= Square(arena.radius - ballRadius) ==> r == e
    ensures var e := Euler(m, acceleration, dt);
      var offset := Vec2(e.center.x - arena.center.x, e.center.y - arena.center.y);
      DistanceSquared(e.center, arena.center) > Square(arena.radius - ballRadius) ==>
        DistanceSquared(r.center, arena.center) == Square(arena.radius - ballRadius) &&
        Dot(r.velocity, r.velocity) == Dot(e.velocity, e.velocity) &&
        Dot(r.velocity, offset) == -Dot(e.velocity, offset)
  {
    var e := Euler(m, acceleration, dt);
    var distanceSquared := DistanceSquared(e.center, arena.center);
    var limit := arena.radius - ballRadius;
    if distanceSquared > Square(limit) then
      var distance := sqrt(distanceSquared);
      var offset := Vec2(e.center.x - arena.center.x, e.center.y - arena.center.y);
      var normal := Vec2(offset.x / distance, offset.y / distance);
      var r := Motion(Vec2(arena.center.x + limit * normal.x, arena.center.y + limit * normal.y),
                      Reflect(e.velocity, normal));
      Bounce(arena.center, offset, distance, distanceSquared, limit, e.velocity);
      r
    else
      e
  }

  /** The correction of `Step` is a specular bounce put back along the ball's own direction:
      on overshoot, the velocity keeps its component tangent to the wall, and the new centre
      lies on the line through the arena centre and the overshot position, on the same side
      whenever the limit radius `arena.radius - ballRadius` is not negative, and on the
      opposite side when it is negative. */
  lemma StepIsSpecular(arena: Circle, ballRadius: real, m: Motion, acceleration: Vec2, dt: real,
                       sqrt: real -> real)
    requires IsSqrt(sqrt)
    ensures var e := Euler(m, acceleration, dt);
      var r := Step(arena, ballRadius, m, acceleration, dt, sqrt);
      var offset := Vec2(e.center.x - arena.center.x, e.center.y - arena.center.y);
      var tangent := Vec2(-offset.y, offset.x);
      DistanceSquared(e.center, arena.center) > Square(arena.radius - ballRadius) ==>
        Dot(r.velocity, tangent) == Dot(e.velocity, tangent) &&
        (r.center.x - arena.center.x) * offset.y == (r.center.y - arena.center.y) * offset.x &&
        (arena.radius - ballRadius >= 0.0 ==>
          Dot(Vec2(r.center.x - arena.center.x, r.center.y - arena.center.y), offset) >= 0.0) &&
        (arena.radius - ballRadius < 0.0 ==>
          Dot(Vec2(r.center.x - arena.center.x, r.center.y - arena.center.y), offset) <= 0.0)
  {
    var e := Euler(m, acceleration, dt);
    var distanceSquared := DistanceSquared(e.center, arena.center);
    var limit := arena.radius - ballRadius;
    if distanceSquared > Square(limit) {
      var offset := Vec2(e.center.x - arena.center.x, e.center.y - arena.center.y);
      Bounce(arena.center, offset, sqrt(distanceSquared), distanceSquared, limit, e.velocity);
    }
  }

  /** `BallSimulation`: an arena, a ball, the ball's velocity and the position it started at. */
  class BallSimulation {
    var arena: Circle
    var ball: Circle
    var velocity: Vec2
    var initialPosition: Vec2

    /** The ball lies within the circle of radius `arena.radius - ball.radius`. */
    predicate Contained()
      reads this
    {
      DistanceSquared(ball.center, arena.center) <= Square(arena.radius - ball.radius)
    }

    /** This simulation is the one the ball-per-pixel setup creates for pixel centre `p`. */
    predicate Spawned(a: Circle, p: Vec2)
      reads this
    {
      arena == a && ball == NewCircle(p, 1.0) && velocity == Vec2(0.0, 0.0) && initialPosition == p
    }

    /** `BallSimulation::new`: the initial position is the ball's centre. */
    constructor(arena: Circle, ball: Circle, velocity: Vec2)
      ensures this.arena == arena && this.ball == ball && this.velocity == velocity
      ensures initialPosition == ball.center
    {
      this.arena := arena;
      this.ball := ball;
      this.velocity := velocity;
      this.initialPosition := ball.center;
    }

    /** `BallSimulation::update`, field by field. Only the ball's centre and the velocity
        change, as `Step` says; afterwards the ball is contained. */
    method Update(acceleration: Vec2, timeStep: real, sqrt: real -> real)
      requires IsSqrt(sqrt)
      modifies this
      ensures Motion(ball.center, velocity) ==
        Step(arena, ball.radius, Motion(old(ball.center), old(velocity)), acceleration, timeStep, sqrt)
      ensures arena == old(arena) && initialPosition == old(initialPosition)
      ensures ball.radius == old(ball.radius) && ball.radiusSquared == old(ball.radiusSquared)
      ensures Contained()
    {
      ghost var e := Euler(Motion(ball.center, velocity), acceleration, timeStep);
      ghost var ball0 := ball;
      velocity := velocity.(x := velocity.x + acceleration.x * timeStep);
      velocity := velocity.(y := velocity.y + acceleration.y * timeStep);

      ball := ball.(center := ball.center.(x := ball.center.x + velocity.x * timeStep));
      ball := ball.(center := ball.center.(y := ball.center.y + velocity.y * timeStep));

      var distanceSquared := Square(ball.center.x - arena.center.x) + Square(ball.center.y - arena.center.y);
      var arenaBoundarySquared := Square(arena.radius - ball.radius);
      assert Motion(ball.center, velocity) == e;
      assert distanceSquared == DistanceSquared(e.center, arena.center);

      if distanceSquared > arenaBoundarySquared {
        var distance := sqrt(distanceSquared);
        var normal := Vec2((ball.center.x - arena.center.x) / distance,
                           (ball.center.y - arena.center.y) / distance);

        assert normal == Vec2((e.center.x - arena.center.x) / distance, (e.center.y - arena.center.y) / distance);
        velocity := Reflect(velocity, normal);

        ball := ball.(center := ball.center.(x := arena.center.x + (arena.radius - ball.radius) * normal.x));
        ball := ball.(center := ball.center.(y := arena.center.y + (arena.radius - ball.radius) * normal.y));
      }
      assert ball == ball0.(center := ball.center);
    }
  }

  /** The first step of the single-ball scene: a ball of radius 4 at the centre of the
      400-pixel arena, moving right at 10, falls by 0.098 and gains 0.98 of downward speed;
      no reflection happens. */
  lemma SingleBallFirstStep(sqrt: real -> real)
    requires IsSqrt(sqrt)
    ensures var arena := NewCircle(Vec2(200.0, 200.0), 200.0);
      Step(arena, 4.0, Motion(Vec2(200.0, 200.0), Vec2(10.0, 0.0)), Vec2(0.0, G), TIME_STEP, sqrt)
        == Motion(Vec2(201.0, 200.098), Vec2(10.0, 0.98))
  {
  }

  // ---------------------------------------------------------------------------------------
  // Ball-per-pixel population

  /** Pixel centres of row `row` with column below `n` that lie strictly inside the arena,
      left to right. */
  function RowInterior(arena: Circle, row: nat, n: nat): seq<Vec2>
  {
    if n == 0 then
      []
    else
      var here := if Raster.PixelInside(arena, row, n - 1) then [Vec2((n - 1) as real, row as real)] else [];
      RowInterior(arena, row, n - 1) + here
  }

  /** Pixel centres of the rows below `m` that lie strictly inside the arena, row by row. */
  function GridInterior(arena: Circle, m: nat): seq<Vec2>
  {
    if m == 0 then [] else GridInterior(arena, m - 1) + RowInterior(arena, m - 1, Raster.SCREEN_WIDTH)
  }

  /** The positions of the balls the ball-per-pixel scenes create, in creation order. */
  function InteriorPoints(arena: Circle): seq<Vec2>
  {
    GridInterior(arena, Raster.SCREEN_HEIGHT)
  }

  /** `p` is the centre of an on-screen pixel that lies strictly inside the arena. */
  predicate InteriorPixel(arena: Circle, p: Vec2)
  {
    p.x == Floor(p.x) as real && p.y == Floor(p.y) as real &&
    0 <= Floor(p.x) < Raster.SCREEN_WIDTH && 0 <= Floor(p.y) < Raster.SCREEN_HEIGHT &&
    Raster.PixelInside(arena, Floor(p.y), Floor(p.x))
  }

  /** Row-major order: an earlier row, or the same row and an earlier column. */
  predicate RowMajorBefore(p: Vec2, q: Vec2)
  {
    p.y < q.y || (p.y == q.y && p.x < q.x)
  }

  predicate RowMajorSorted(s: seq<Vec2>)
  {
    forall j, k :: 0 <= j < k < |s| ==> RowMajorBefore(s[j], s[k])
  }

  lemma {:induction false} RowInteriorFacts(arena: Circle, row: nat, n: nat)
    requires row < Raster.SCREEN_HEIGHT && n <= Raster.SCREEN_WIDTH
    ensures forall p :: p in RowInterior(arena, row, n) ==>
      InteriorPixel(arena, p) && p.y == row as real && p.x < n as real
    ensures RowMajorSorted(RowInterior(arena, row, n))
    ensures forall col :: 0 <= col < n && Raster.PixelInside(arena, row, col) ==>
      Vec2(col as real, row as real) in RowInterior(arena, row, n)
  {
    if n > 0 {
      RowInteriorFacts(arena, row, n - 1);
    }
  }

  lemma {:induction false} GridInteriorFacts(arena: Circle, m: nat)
    requires m <= Raster.SCREEN_HEIGHT
    ensures forall p :: p in GridInterior(arena, m) ==> InteriorPixel(arena, p) && p.y < m as real
    ensures RowMajorSorted(GridInterior(arena, m))
    ensures forall row, col ::
      0 <= row < m && 0 <= col < Raster.SCREEN_WIDTH && Raster.PixelInside(arena, row, col) ==>
        Vec2(col as real, row as real) in GridInterior(arena, m)
  {
    if m > 0 {
      GridInteriorFacts(arena, m - 1);
      RowInteriorFacts(arena, m - 1, Raster.SCREEN_WIDTH);
    }
  }

  /** The ball-per-pixel population holds exactly the on-screen pixel centres strictly
      inside the arena, each once, in row-major order. */
  lemma InteriorPointsExact(arena: Circle)
    ensures forall p :: p in InteriorPoints(arena) <==> InteriorPixel(arena, p)
    ensures RowMajorSorted(InteriorPoints(arena))
  {
    GridInteriorFacts(arena, Raster.SCREEN_HEIGHT);
    forall p | InteriorPixel(arena, p)
      ensures p in InteriorPoints(arena)
    {
      assert p == Vec2(Floor(p.x) as real, Floor(p.y) as real);
    }
  }

  /** The ball-per-pixel setup of the scenes: one ball of radius 1 at rest on every pixel
      centre strictly inside the arena, created row by row. */
  method BallPerPixel(arena: Circle) returns (simulations: seq<BallSimulation>)
    ensures |simulations| == |InteriorPoints(arena)|
    ensures forall k :: 0 <= k < |simulations| ==> simulations[k].Spawned(arena, InteriorPoints(arena)[k])
    ensures forall k :: 0 <= k < |simulations| ==> fresh(simulations[k])
    ensures forall j, k :: 0 <= j < k < |simulations| ==> simulations[j] != simulations[k]
  {
    simulations := [];
    var row := 0;
    while row < Raster.SCREEN_HEIGHT
      invariant 0 <= row <= Raster.SCREEN_HEIGHT
      invariant |simulations| == |GridInterior(arena, row)|
      invariant forall k :: 0 <= k < |simulations| ==> simulations[k].Spawned(arena, GridInterior(arena, row)[k])
      invariant forall k :: 0 <= k < |simulations| ==> fresh(simulations[k])
      invariant forall j, k :: 0 <= j < k < |simulations| ==> simulations[j] != simulations[k]
    {
      var col := 0;
      while col < Raster.SCREEN_WIDTH
        invariant 0 <= col <= Raster.SCREEN_WIDTH
        invariant |simulations| == |GridInterior(arena, row) + RowInterior(arena, row, col)|
        invariant forall k :: 0 <= k < |simulations| ==>
          simulations[k].Spawned(arena, (GridInterior(arena, row) + RowInterior(arena, row, col))[k])
        invariant forall k :: 0 <= k < |simulations| ==> fresh(simulations[k])
        invariant forall j, k :: 0 <= j < k < |simulations| ==> simulations[j] != simulations[k]
      {
        var x := col as real;
        var y := row as real;

        var distanceSquared := Square(x - arena.center.x) + Square(y - arena.center.y);

        if distanceSquared < arena.radiusSquared {
          var ball := NewCircle(Vec2(x, y), 1.0);
          var simulation := new BallSimulation(arena, ball, Vec2(0.0, 0.0));
          simulations := simulations + [simulation];
        }
        col := col + 1;
      }
      row := row + 1;
    }
  }
}
