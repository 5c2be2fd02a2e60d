/**
  The per-tick motion of the background particle animation.

  Each particle carries a position `(x, y)` and a velocity `(dx, dy)`. On every
  tick the velocity is first reflected on each axis whose coordinate lies
  outside the viewport, and only then is the (possibly reflected) velocity added
  to the position. The reflection therefore reacts one tick late: a particle may
  overshoot an edge by one step before it turns back.

  Coordinates are idealised as exact reals.
 */
module Motion {

  /** Number of particles in one run of the animation. */
  const NrPoints: nat := 30

  /** The drawing surface size, captured once when the animation starts. */
  datatype Viewport = Viewport(width: real, height: real)

  /** One particle: its position and its per-tick displacement. */
  datatype Particle = Particle(x: real, y: real, dx: real, dy: real)

  function Abs(v: real): real {
    if v < 0.0 then -v else v
  }

  /** A coordinate is out of range when it lies strictly outside `[0, bound]`. */
  predicate OutOfRange(c: real, bound: real) {
    c < 0.0 || c > bound
  }

  /** The velocity component after the boundary check on one axis. */
  function Bounce(c: real, v: real, bound: real): (w: real)
    ensures OutOfRange(c, bound) ==> w == -v
    ensures !OutOfRange(c, bound) ==> w == v
    ensures Abs(w) == Abs(v)
  {
    if OutOfRange(c, bound) then -v else v
  }

  /** One particle's update: reflect on each axis, then move by the new velocity. */
  function Step(p: Particle, vp: Viewport): (q: Particle)
    ensures q.dx == (if OutOfRange(p.x, vp.width) then -p.dx else p.dx)
    ensures q.dy == (if OutOfRange(p.y, vp.height) then -p.dy else p.dy)
    ensures q.x - q.dx == p.x && q.y - q.dy == p.y
    ensures Abs(q.dx) == Abs(p.dx) && Abs(q.dy) == Abs(p.dy)
  {
    var dx := Bounce(p.x, p.dx, vp.width);
    var dy := Bounce(p.y, p.dy, vp.height);
    Particle(p.x + dx, p.y + dy, dx, dy)
  }

  /** One tick over the whole particle sequence. */
  function Tick(ps: seq<Particle>, vp: Viewport): (qs: seq<Particle>)
    ensures |qs| == |ps|
    ensures forall i :: 0 <= i < |ps| ==> qs[i] == Step(ps[i], vp)
  {
    seq(|ps|, i requires 0 <= i < |ps| => Step(ps[i], vp))
  }

  /** The state after `n` ticks. */
  function Run(ps: seq<Particle>, vp: Viewport, n: nat): (qs: seq<Particle>)
    ensures |qs| == |ps|
    decreases n
  {
    if n == 0 then ps else Run(Tick(ps, vp), vp, n - 1)
  }

  /**
    The update loop of one frame, as the animation performs it: slot `i` is
    overwritten with the stepped particle and no other slot is touched.
   */
  method StepAll(ps: seq<Particle>, vp: Viewport) returns (qs: seq<Particle>)
    ensures qs == Tick(ps, vp)
  {
    qs := ps;
    for i := 0 to |qs|
      invariant |qs| == |ps|
      invariant forall k :: 0 <= k < i ==> qs[k] == Step(ps[k], vp)
      invariant forall k :: i <= k < |ps| ==> qs[k] == ps[k]
    {
      qs := qs[i := Step(qs[i], vp)];
    }
  }

  // ---------------------------------------------------------------------------
  // Initial state and invariants

  /**
    A coordinate `random * size` with `random` in `[0, 1)`: inside
    `[0, size)`, or exactly `0` on an axis of size `0`.
   */
  predicate DrawnWithin(c: real, size: real) {
    (0.0 <= c < size) || (c == 0.0 && size == 0.0)
  }

  /**
    What the start-up draw guarantees of one particle: each coordinate
    `random * size`, and velocity components `random * 2 - 1` in `[-1, 1)`.
   */
  predicate InitialParticle(p: Particle, vp: Viewport) {
    && DrawnWithin(p.x, vp.width)
    && DrawnWithin(p.y, vp.height)
    && -1.0 <= p.dx < 1.0
    && -1.0 <= p.dy < 1.0
  }

  predicate ValidInitial(ps: seq<Particle>, vp: Viewport) {
    |ps| == NrPoints && forall i :: 0 <= i < |ps| ==> InitialParticle(ps[i], vp)
  }

  predicate SpeedBounded(p: Particle) {
    Abs(p.dx) <= 1.0 && Abs(p.dy) <= 1.0
  }

  /**
    On one axis: the coordinate is inside `[0, bound]`, or it is outside and
    still moving outward, having left the range in the last step only.
   */
  predicate AxisContained(c: real, v: real, bound: real) {
    || 0.0 <= c <= bound
    || (c < 0.0 && v < 0.0 && 0.0 <= c - v <= bound)
    || (c > bound && v > 0.0 && 0.0 <= c - v <= bound)
  }

  predicate Contained(p: Particle, vp: Viewport) {
    AxisContained(p.x, p.dx, vp.width) && AxisContained(p.y, p.dy, vp.height)
  }

  lemma InitialIsContained(p: Particle, vp: Viewport)
    requires InitialParticle(p, vp)
    ensures Contained(p, vp) && SpeedBounded(p)
  {
  }

  lemma StepKeepsAxisContained(c: real, v: real, bound: real)
    requires AxisContained(c, v, bound)
    ensures AxisContained(c + Bounce(c, v, bound), Bounce(c, v, bound), bound)
  {
  }

  lemma StepKeepsContained(p: Particle, vp: Viewport)
    requires Contained(p, vp)
    ensures Contained(Step(p, vp), vp)
  {
    StepKeepsAxisContained(p.x, p.dx, vp.width);
    StepKeepsAxisContained(p.y, p.dy, vp.height);
  }

  /** Particle `i` after `n` ticks is particle `i` stepped `n` times on its own. */
  function StepN(p: Particle, vp: Viewport, n: nat): Particle
    decreases n
  {
    if n == 0 then p else StepN(Step(p, vp), vp, n - 1)
  }

  lemma {:induction false} RunIsPointwise(ps: seq<Particle>, vp: Viewport, n: nat)
    ensures forall i :: 0 <= i < |ps| ==> Run(ps, vp, n)[i] == StepN(ps[i], vp, n)
    decreases n
  {
    if n > 0 {
      RunIsPointwise(Tick(ps, vp), vp, n - 1);
    }
  }

  lemma {:induction false} StepNKeepsSpeed(p: Particle, vp: Viewport, n: nat)
    ensures Abs(StepN(p, vp, n).dx) == Abs(p.dx)
    ensures Abs(StepN(p, vp, n).dy) == Abs(p.dy)
    decreases n
  {
    if n > 0 {
      StepNKeepsSpeed(Step(p, vp), vp, n - 1);
    }
  }

  lemma {:induction false} StepNKeepsContained(p: Particle, vp: Viewport, n: nat)
    requires Contained(p, vp)
    ensures Contained(StepN(p, vp, n), vp)
    decreases n
  {
    if n > 0 {
      StepKeepsContained(p, vp);
      StepNKeepsContained(Step(p, vp), vp, n - 1);
    }
  }

  /** A contained coordinate is at most one step beyond either edge. */
  lemma AxisContainedBound(c: real, v: real, bound: real)
    requires AxisContained(c, v, bound)
    ensures -Abs(v) <= c <= bound + Abs(v)
  {
  }

  /**
    From any start the animation can draw, after any number of ticks: the
    particle count is unchanged, every velocity component keeps its initial
    magnitude (so stays within `[-1, 1]`), and every particle is contained,
    hence at most one unit outside the viewport.
   */
  lemma RunInvariants(ps: seq<Particle>, vp: Viewport, n: nat)
    requires ValidInitial(ps, vp)
    ensures |Run(ps, vp, n)| == NrPoints
    ensures forall i :: 0 <= i < NrPoints ==>
              && Abs(Run(ps, vp, n)[i].dx) == Abs(ps[i].dx)
              && Abs(Run(ps, vp, n)[i].dy) == Abs(ps[i].dy)
              && SpeedBounded(Run(ps, vp, n)[i])
              && Contained(Run(ps, vp, n)[i], vp)
              && -1.0 <= Run(ps, vp, n)[i].x <= vp.width + 1.0
              && -1.0 <= Run(ps, vp, n)[i].y <= vp.height + 1.0
  {
    var qs := Run(ps, vp, n);
    RunIsPointwise(ps, vp, n);
    forall i | 0 <= i < NrPoints
      ensures && Abs(qs[i].dx) == Abs(ps[i].dx)
              && Abs(qs[i].dy) == Abs(ps[i].dy)
              && SpeedBounded(qs[i])
              && Contained(qs[i], vp)
              && -1.0 <= qs[i].x <= vp.width + 1.0
              && -1.0 <= qs[i].y <= vp.height + 1.0
    {
      InitialIsContained(ps[i], vp);
      StepNKeepsSpeed(ps[i], vp, n);
      StepNKeepsContained(ps[i], vp, n);
      AxisContainedBound(qs[i].x, qs[i].dx, vp.width);
      AxisContainedBound(qs[i].y, qs[i].dy, vp.height);
    }
  }

  /** Reflection precedes displacement: `x = -3, dx = -2` becomes `dx = 2, x = -1`. */
  lemma LateReflectionExample(vp: Viewport, y: real, dy: real)
    requires 0.0 <= y <= vp.height
    ensures Step(Particle(-3.0, y, -2.0, dy), vp) == Particle(-1.0, y + dy, 2.0, dy)
  {
  }

  /** A coordinate exactly on an edge does not reflect. */
  lemma EdgeDoesNotReflect(vp: Viewport, dx: real, dy: real)
    requires 0.0 <= vp.width && 0.0 <= vp.height
    ensures Step(Particle(0.0, vp.height, dx, dy), vp).dx == dx
    ensures Step(Particle(vp.width, 0.0, dx, dy), vp).dx == dx
    ensures Step(Particle(0.0, vp.height, dx, dy), vp).dy == dy
    ensures Step(Particle(vp.width, 0.0, dx, dy), vp).dy == dy
  {
  }
}
