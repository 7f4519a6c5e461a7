/** The rising shell (`class Rocket`): launched from the bottom edge, it drags a
    trail of its last eight positions and slows under a weak gravity until its
    vertical speed has decayed to the explosion threshold. */
module Rockets {
  import opened Common

  /** Added to vy on every update. */
  const Gravity: real := 0.08
  /** The trail never holds more positions than this. */
  const TrailCapacity: nat := 8
  /** A rocket whose updated vy is at least this explodes. */
  const ExplosionVy: real := -1.5

  datatype RocketState = RocketState(
    x: real, y: real,
    vx: real, vy: real,
    color: Color,
    trail: seq<Point>,
    thickness: real)

  /** The five `Math.random()` draws of the constructor, in the order it makes them. */
  datatype LaunchDraw = LaunchDraw(x: real, vx: real, vy: real, hue: real, thickness: real)
  {
    predicate Valid() {
      IsUnit(x) && IsUnit(vx) && IsUnit(vy) && IsUnit(hue) && IsUnit(thickness)
    }
  }

  /** A new rocket on a canvas of width w and height h: centred (within 10
      pixels) when forceCenter is set, otherwise somewhere in the middle 80% of
      the width; always on the bottom edge, rising at 9 to 13 pixels per frame,
      with no trail yet. */
  function Launch(forceCenter: bool, w: real, h: real, d: LaunchDraw): (r: RocketState)
    requires w >= 0.0 && d.Valid()
    ensures forceCenter ==> w / 2.0 - 10.0 <= r.x < w / 2.0 + 10.0
    ensures !forceCenter ==> w * 0.1 <= r.x <= w * 0.9
    ensures r.y == h && r.trail == []
    ensures -13.0 <= r.vy < -9.0
    ensures -1.5 <= r.vx < 1.5
    ensures 0.0 <= r.color.hue < 360.0
    ensures 3.0 <= r.thickness < 5.0
  {
    var x := if forceCenter then w / 2.0 + Random(d.x, -10.0, 10.0)
             else Random(d.x, w * 0.1, w * 0.9);
    RocketState(x, h, Random(d.vx, -1.5, 1.5), Random(d.vy, -13.0, -9.0),
                Hsl(Random(d.hue, 0.0, 360.0)), [], Random(d.thickness, 3.0, 5.0))
  }

  /** One `update()`: remember the current position at the young end of the
      trail (dropping the oldest once more than eight are held), move by the
      velocity, and let gravity act on vy. Gravity only ever raises vy, so a
      rocket that meets the explode condition still meets it afterwards. */
  function Step(s: RocketState): (r: RocketState)
    ensures r.vx == s.vx && r.color == s.color && r.thickness == s.thickness
    ensures r.vy > s.vy
    ensures Explodes(s) ==> Explodes(r)
  {
    var pushed := s.trail + [Point(s.x, s.y)];
    var trail := if |pushed| > TrailCapacity then pushed[1..] else pushed;
    RocketState(s.x + s.vx, s.y + s.vy, s.vx, s.vy + Gravity, s.color, trail, s.thickness)
  }

  /** The trail after one update ends at the position the rocket updated
      from; it grows by that one position while it holds fewer than eight,
      otherwise it loses its oldest; so it never grows past eight. */
  lemma StepTrail(s: RocketState)
    ensures var t := Step(s).trail;
      && t != [] && t[|t| - 1] == Point(s.x, s.y)
      && (|s.trail| < TrailCapacity ==> t == s.trail + [Point(s.x, s.y)])
      && (|s.trail| >= TrailCapacity ==> t == s.trail[1..] + [Point(s.x, s.y)])
      && (|s.trail| <= TrailCapacity ==> |t| <= TrailCapacity)
  {
  }

  /** The explode condition of the frame loop, read after the update. */
  predicate Explodes(s: RocketState) {
    s.vy >= ExplosionVy
  }

  /** The state after n updates. */
  function After(s: RocketState, n: nat): RocketState {
    if n == 0 then s else Step(After(s, n - 1))
  }

  /** After n updates the horizontal speed is the one the rocket started
      with, gravity has added n·0.08 to the vertical speed, and the colour and
      thickness are the rocket's own. */
  lemma {:induction false} SpeedAfter(s: RocketState, n: nat)
    ensures var r := After(s, n);
      && r.vx == s.vx
      && r.vy == s.vy + Gravity * n as real
      && r.color == s.color && r.thickness == s.thickness
  {
    if n > 0 {
      SpeedAfter(s, n - 1);
    }
  }

  /** After n updates the rocket has drifted n·vx sideways. */
  lemma {:induction false} DriftAfter(s: RocketState, n: nat)
    ensures After(s, n).x == s.x + n as real * s.vx
  {
    if n > 0 {
      DriftAfter(s, n - 1);
      SpeedAfter(s, n - 1);
      var p := After(s, n - 1);
      assert After(s, n).x == p.x + p.vx;
      DriftStep((n - 1) as real, n as real, s.x, s.vx, p.x);
    }
  }

  /** The algebra of one step of DriftAfter, with k = m + 1. */
  lemma DriftStep(m: real, k: real, x0: real, vx: real, x: real)
    requires k == m + 1.0
    requires x == x0 + m * vx
    ensures x + vx == x0 + k * vx
  {
    assert m * vx + vx == k * vx;
  }

  /** After n updates the rocket has risen by the sum of its vertical
      speeds: y + n·vy + 0.04·n·(n - 1). */
  lemma {:induction false} HeightAfter(s: RocketState, n: nat)
    ensures After(s, n).y == s.y + n as real * s.vy + 0.04 * (n as real) * (n as real - 1.0)
  {
    if n > 0 {
      HeightAfter(s, n - 1);
      SpeedAfter(s, n - 1);
      var p := After(s, n - 1);
      assert After(s, n).y == p.y + p.vy;
      HeightStep((n - 1) as real, n as real, s.y, s.vy, p.y, p.vy);
    }
  }

  /** The algebra of one step of HeightAfter, with k = m + 1. */
  lemma HeightStep(m: real, k: real, y0: real, vy0: real, y: real, vy: real)
    requires k == m + 1.0
    requires y == y0 + m * vy0 + 0.04 * m * (m - 1.0)
    requires vy == vy0 + Gravity * m
    ensures y + vy == y0 + k * vy0 + 0.04 * k * (k - 1.0)
  {
    assert m * vy0 + vy0 == k * vy0;
    assert 0.04 * m * (m - 1.0) + 0.08 * m == 0.04 * k * m;
  }

  /** After n updates the trail holds min(n + initial length, 8) positions. */
  lemma {:induction false} TrailAfter(s: RocketState, n: nat)
    requires |s.trail| <= TrailCapacity
    ensures |After(s, n).trail| == Min(|s.trail| + n, TrailCapacity)
  {
    if n > 0 {
      TrailAfter(s, n - 1);
    }
  }

  /** The closed form of n updates, gathered. */
  lemma AfterClosedForm(s: RocketState, n: nat)
    requires |s.trail| <= TrailCapacity
    ensures var r := After(s, n);
      && r.vx == s.vx
      && r.vy == s.vy + Gravity * n as real
      && r.x == s.x + n as real * s.vx
      && r.y == s.y + n as real * s.vy + 0.04 * (n as real) * (n as real - 1.0)
      && r.color == s.color && r.thickness == s.thickness
      && |r.trail| == Min(|s.trail| + n, TrailCapacity)
  {
    SpeedAfter(s, n);
    DriftAfter(s, n);
    HeightAfter(s, n);
    TrailAfter(s, n);
  }

  /** A freshly launched rocket (vy in [-13, -9)) survives its first 93
      updates and has reached the explosion threshold by its 144th, so the
      frame loop removes it after between 94 and 144 frames. */
  lemma FlightLength(s: RocketState, n: nat)
    requires -13.0 <= s.vy < -9.0 && |s.trail| <= TrailCapacity
    ensures n <= 93 ==> !Explodes(After(s, n))
    ensures n >= 144 ==> Explodes(After(s, n))
  {
    AfterClosedForm(s, n);
  }

  /** A rocket object; its fields are those of the source's class. */
  class Rocket {
    var x: real
    var y: real
    var vx: real
    var vy: real
    var color: Color
    var trail: seq<Point>
    var thickness: real

    function State(): RocketState
      reads this
    {
      RocketState(x, y, vx, vy, color, trail, thickness)
    }

    /** The trail is never longer than its capacity. */
    ghost predicate Valid()
      reads this
    {
      |trail| <= TrailCapacity
    }

    constructor (forceCenter: bool, w: real, h: real, d: LaunchDraw)
      requires w >= 0.0 && d.Valid()
      ensures Valid() && State() == Launch(forceCenter, w, h, d)
    {
      if forceCenter {
        x := w / 2.0 + Random(d.x, -10.0, 10.0);
      } else {
        x := Random(d.x, w * 0.1, w * 0.9);
      }
      y := h;
      vx := Random(d.vx, -1.5, 1.5);
      vy := Random(d.vy, -13.0, -9.0);
      color := Hsl(Random(d.hue, 0.0, 360.0));
      trail := [];
      thickness := Random(d.thickness, 3.0, 5.0);
    }

    method Update()
      modifies this
      ensures State() == Step(old(State()))
      ensures old(Valid()) ==> Valid()
    {
      trail := trail + [Point(x, y)];
      if |trail| > TrailCapacity {
        trail := trail[1..];
      }
      x := x + vx;
      y := y + vy;
      vy := vy + Gravity;
    }
  }
}
