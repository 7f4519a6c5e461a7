/** The spark (`class Particle`) that an exploding rocket leaves behind: it
    flies outwards, slowed by drag and pulled down by gravity, and fades by a
    fixed amount per frame until it is invisible. */
module Particles {
  import opened Common

  /** Both velocity components are multiplied by this on every update. */
  const Drag: real := 0.95
  /** Added to vy on every update, after the drag. */
  const Gravity: real := 0.06

  datatype ParticleState = ParticleState(
    x: real, y: real,
    vx: real, vy: real,
    alpha: real,
    color: Color,
    decay: real,
    size: real)

  /** What the constructor draws. The angle and speed draws enter only through
      the initial velocity, speed·(cos angle, sin angle), so the velocity is
      given directly with its squared length in [25, 144); decay and size are
      unit draws. */
  datatype BurstDraw = BurstDraw(vx: real, vy: real, decay: real, size: real)
  {
    predicate Valid() {
      25.0 <= vx * vx + vy * vy < 144.0 && IsUnit(decay) && IsUnit(size)
    }
  }

  /** A new particle at (x, y) in the given colour: fully opaque, fading by
      0.008 to 0.015 per frame, 2 to 4 pixels across, moving at 5 to 12 pixels
      per frame. */
  function Spawn(x: real, y: real, color: Color, d: BurstDraw): (r: ParticleState)
    requires d.Valid()
    ensures r.x == x && r.y == y && r.color == color
    ensures r.alpha == 1.0
    ensures 0.008 <= r.decay < 0.015
    ensures 2.0 <= r.size < 4.0
    ensures 25.0 <= r.vx * r.vx + r.vy * r.vy < 144.0
  {
    ParticleState(x, y, d.vx, d.vy, 1.0, color, Random(d.decay, 0.008, 0.015), Random(d.size, 2.0, 4.0))
  }

  /** One `update()`: move by the current velocity, then damp both components
      of the velocity, pull vy down, and fade. Opacity never rises, so a
      particle that has burnt out stays burnt out. */
  function Step(s: ParticleState): (r: ParticleState)
    ensures s.decay > 0.0 ==> r.alpha < s.alpha
    ensures s.decay >= 0.0 && Burnt(s) ==> Burnt(r)
    ensures r.color == s.color && r.decay == s.decay && r.size == s.size
  {
    ParticleState(s.x + s.vx, s.y + s.vy, Drag * s.vx, Drag * s.vy + Gravity,
                  s.alpha - s.decay, s.color, s.decay, s.size)
  }

  /** The particle loop's removal condition, read after the update. */
  predicate Burnt(s: ParticleState) {
    s.alpha <= 0.0
  }

  /** The state after n updates. */
  function After(s: ParticleState, n: nat): ParticleState {
    if n == 0 then s else Step(After(s, n - 1))
  }

  /** 0.95 to the power n. */
  function DragAfter(n: nat): (p: real)
    ensures 0.0 < p <= 1.0
  {
    if n == 0 then 1.0 else Drag * DragAfter(n - 1)
  }

  /** After n updates the velocity has decayed geometrically: with p = 0.95^n
      the horizontal speed is p·vx, and the vertical speed has moved from vy
      towards the terminal speed 0.06 / 0.05 = 1.2 by the same factor. */
  lemma VelocityAfter(s: ParticleState, n: nat)
    ensures var r, p := After(s, n), DragAfter(n);
      && r.vx == p * s.vx
      && r.vy == p * s.vy + 1.2 * (1.0 - p)
  {
    SideSpeedAfter(s, n);
    FallSpeedAfter(s, n);
  }

  /** The horizontal half of VelocityAfter. */
  lemma {:induction false} SideSpeedAfter(s: ParticleState, n: nat)
    ensures After(s, n).vx == DragAfter(n) * s.vx
  {
    if n > 0 {
      SideSpeedAfter(s, n - 1);
      var q := After(s, n - 1);
      assert After(s, n).vx == Drag * q.vx;
      DampSide(DragAfter(n - 1), DragAfter(n), s.vx, q.vx);
    }
  }

  /** The vertical half of VelocityAfter. */
  lemma {:induction false} FallSpeedAfter(s: ParticleState, n: nat)
    ensures After(s, n).vy == DragAfter(n) * s.vy + 1.2 * (1.0 - DragAfter(n))
  {
    if n > 0 {
      FallSpeedAfter(s, n - 1);
      var q := After(s, n - 1);
      assert After(s, n).vy == Drag * q.vy + Gravity;
      DampFall(DragAfter(n - 1), DragAfter(n), s.vy, q.vy);
    }
  }

  /** One update of the horizontal closed form, with p' = 0.95·p. */
  lemma DampSide(p: real, p': real, vx: real, qx: real)
    requires p' == Drag * p && qx == p * vx
    ensures Drag * qx == p' * vx
  {
  }

  /** One update of the vertical closed form, with p' = 0.95·p. */
  lemma DampFall(p: real, p': real, vy: real, qy: real)
    requires p' == Drag * p && qy == p * vy + 1.2 * (1.0 - p)
    ensures Drag * qy + Gravity == p' * vy + 1.2 * (1.0 - p')
  {
  }

  /** Drag turns every unit of speed into 20 pixels of travel in all: after
      n updates the particle has moved 20·(vx - vx') sideways and
      20·(vy - vy') + 1.2·n downwards, where vx', vy' are its current speeds
      (1.2 per frame is the terminal fall speed). */
  lemma {:induction false} TravelAfter(s: ParticleState, n: nat)
    ensures After(s, n).x == s.x + 20.0 * (s.vx - After(s, n).vx)
    ensures After(s, n).y == s.y + 20.0 * (s.vy - After(s, n).vy) + 1.2 * n as real
  {
    if n > 0 {
      TravelAfter(s, n - 1);
    }
  }

  /** The closed form of the position: with p = 0.95^n the particle is at
      x + 20·(1 - p)·vx and y + 20·(1 - p)·vy + 1.2·n - 24·(1 - p). */
  lemma PositionAfter(s: ParticleState, n: nat)
    ensures var r, p := After(s, n), DragAfter(n);
      && r.x == s.x + 20.0 * (1.0 - p) * s.vx
      && r.y == s.y + 20.0 * (1.0 - p) * s.vy + 1.2 * n as real - 24.0 * (1.0 - p)
  {
    TravelAfter(s, n);
    VelocityAfter(s, n);
  }

  /** After n updates the opacity has dropped by exactly n·decay, and the
      colour, decay rate and size are the particle's own. */
  lemma {:induction false} FadeAfter(s: ParticleState, n: nat)
    ensures var r := After(s, n);
      && r.alpha == s.alpha - n as real * s.decay
      && r.color == s.color && r.decay == s.decay && r.size == s.size
  {
    if n > 0 {
      FadeAfter(s, n - 1);
      var m := (n - 1) as real;
      assert m * s.decay + s.decay == (m + 1.0) * s.decay;
    }
  }

  /** Opacity falls by the particle's own decay on every update, so it is
      strictly decreasing from one frame to the next. */
  lemma FadesEachFrame(s: ParticleState, n: nat)
    requires 0.008 <= s.decay
    ensures After(s, n + 1).alpha < After(s, n).alpha
  {
    FadeAfter(s, n);
    FadeAfter(s, n + 1);
    var k := n as real;
    assert (k + 1.0) * s.decay == k * s.decay + s.decay;
  }

  /** A new particle (opacity 1, decay in [0.008, 0.015)) is still visible
      after 66 updates and has burnt out by its 125th. */
  lemma Lifetime(s: ParticleState, n: nat)
    requires s.alpha == 1.0 && 0.008 <= s.decay < 0.015
    ensures n <= 66 ==> !Burnt(After(s, n))
    ensures n >= 125 ==> Burnt(After(s, n))
  {
    FadeAfter(s, n);
    FadeBounds(n as real, s.decay);
  }

  /** The arithmetic behind Lifetime: k frames of a decay in [0.008, 0.015)
      use up less than the full opacity when k <= 66, and all of it when
      k >= 125. */
  lemma FadeBounds(k: real, d: real)
    requires 0.0 <= k && 0.008 <= d < 0.015
    ensures k <= 66.0 ==> k * d < 1.0
    ensures k >= 125.0 ==> k * d >= 1.0
  {
    if k <= 66.0 {
      MulMonotone(k, 66.0, d);
    }
    if k >= 125.0 {
      MulMonotone(125.0, k, d);
    }
  }

  /** A particle object; its fields are those of the source's class. */
  class Particle {
    var x: real
    var y: real
    var vx: real
    var vy: real
    var alpha: real
    var color: Color
    var decay: real
    var size: real

    function State(): ParticleState
      reads this
    {
      ParticleState(x, y, vx, vy, alpha, color, decay, size)
    }

    /** The decay rate stays in the constructor's range. */
    ghost predicate Valid()
      reads this
    {
      0.008 <= decay < 0.015
    }

    constructor (x: real, y: real, color: Color, d: BurstDraw)
      requires d.Valid()
      ensures Valid() && State() == Spawn(x, y, color, d)
    {
      this.x := x;
      this.y := y;
      vx := d.vx;
      vy := d.vy;
      alpha := 1.0;
      this.color := color;
      decay := Random(d.decay, 0.008, 0.015);
      size := Random(d.size, 2.0, 4.0);
    }

    method Update()
      modifies this
      ensures State() == Step(old(State()))
      ensures old(Valid()) ==> Valid()
    {
      x := x + vx;
      y := y + vy;
      vx := vx * Drag;
      vy := vy * Drag;
      vy := vy + Gravity;
      alpha := alpha - decay;
    }
  }
}
