/** The per-frame body of the animation loop without its drawing: the launch
    logic, then the rocket loop (update, explode, splice), then the particle
    loop (update, splice the burnt out). */
module Simulation {
  import opened Common
  import opened Culling
  import Rockets
  import Particles
  import Emission

  /** How many particles an exploding rocket leaves behind. */
  const ParticlesPerExplosion: nat := 200

  /** The states of a list of rockets, as values. */
  ghost function RocketStates(rs: seq<Rockets.Rocket>): (ss: seq<Rockets.RocketState>)
    reads rs
    ensures |ss| == |rs| && forall k :: 0 <= k < |rs| ==> ss[k] == rs[k].State()
  {
    seq(|rs|, k requires 0 <= k < |rs| reads rs => rs[k].State())
  }

  /** The states of a list of particles, as values. */
  ghost function ParticleStates(ps: seq<Particles.Particle>): (ss: seq<Particles.ParticleState>)
    reads ps
    ensures |ss| == |ps| && forall k :: 0 <= k < |ps| ==> ss[k] == ps[k].State()
  {
    seq(|ps|, k requires 0 <= k < |ps| reads ps => ps[k].State())
  }

  /** Every rocket state updated once. */
  function StepRockets(ss: seq<Rockets.RocketState>): (r: seq<Rockets.RocketState>)
    ensures |r| == |ss| && forall k :: 0 <= k < |ss| ==> r[k] == Rockets.Step(ss[k])
  {
    seq(|ss|, k requires 0 <= k < |ss| => Rockets.Step(ss[k]))
  }

  /** Every particle state updated once. */
  function StepParticles(ss: seq<Particles.ParticleState>): (r: seq<Particles.ParticleState>)
    ensures |r| == |ss| && forall k :: 0 <= k < |ss| ==> r[k] == Particles.Step(ss[k])
  {
    seq(|ss|, k requires 0 <= k < |ss| => Particles.Step(ss[k]))
  }

  /** Which rockets the rocket loop keeps, read from their updated states. */
  function Unexploded(post: seq<Rockets.RocketState>): (keep: seq<bool>)
    ensures |keep| == |post|
    ensures forall k :: 0 <= k < |post| ==> (keep[k] <==> !Rockets.Explodes(post[k]))
  {
    seq(|post|, k requires 0 <= k < |post| => !Rockets.Explodes(post[k]))
  }

  /** Which particles the particle loop keeps, read from their updated states. */
  function Unburnt(post: seq<Particles.ParticleState>): (keep: seq<bool>)
    ensures |keep| == |post|
    ensures forall k :: 0 <= k < |post| ==> (keep[k] <==> !Particles.Burnt(post[k]))
  {
    seq(|post|, k requires 0 <= k < |post| => !Particles.Burnt(post[k]))
  }

  /** The constructor draws of the particles of one explosion. */
  predicate BurstDrawsOk(ds: seq<Particles.BurstDraw>) {
    |ds| == ParticlesPerExplosion && forall d :: d in ds ==> d.Valid()
  }

  /** Explosion draws for (at least) rockets 0 to n - 1, one list per rocket. */
  predicate BurstDrawsFor(bursts: seq<seq<Particles.BurstDraw>>, n: nat) {
    n <= |bursts| && forall k :: 0 <= k < |bursts| ==> BurstDrawsOk(bursts[k])
  }

  /** The constructor draws of the rockets a burst launches. */
  predicate LaunchDrawsOk(ds: seq<Rockets.LaunchDraw>) {
    |ds| >= Emission.MaxBurst && forall d :: d in ds ==> d.Valid()
  }

  /** The particles one explosion at (x, y) in the given colour creates: 200
      of them, all there, all in that colour, all fully opaque. */
  function Explosion(x: real, y: real, color: Color, ds: seq<Particles.BurstDraw>): (ps: seq<Particles.ParticleState>)
    requires BurstDrawsOk(ds)
    ensures |ps| == ParticlesPerExplosion
    ensures forall q :: q in ps ==> q.x == x && q.y == y && q.color == color && q.alpha == 1.0
  {
    seq(ParticlesPerExplosion, j requires 0 <= j < ParticlesPerExplosion => Particles.Spawn(x, y, color, ds[j]))
  }

  /** The number of rockets lo.. that explode. */
  function ExplodingCount(post: seq<Rockets.RocketState>, lo: nat): (n: nat)
    requires lo <= |post|
    ensures n <= |post| - lo
    decreases |post| - lo
  {
    if lo == |post| then 0
    else (if Rockets.Explodes(post[lo]) then 1 else 0) + ExplodingCount(post, lo + 1)
  }

  /** Everything the rocket loop adds for the rockets lo.. with updated states
      post, in the order it adds them: the loop runs from the last rocket down,
      so rocket k's particles come after those of every rocket above k. */
  function Explosions(post: seq<Rockets.RocketState>, bursts: seq<seq<Particles.BurstDraw>>, lo: nat): (ps: seq<Particles.ParticleState>)
    requires lo <= |post| && BurstDrawsFor(bursts, |post|)
    ensures |ps| == ParticlesPerExplosion * ExplodingCount(post, lo)
    decreases |post| - lo
  {
    if lo == |post| then []
    else
      var r := post[lo];
      Explosions(post, bursts, lo + 1)
        + (if Rockets.Explodes(r) then Explosion(r.x, r.y, r.color, bursts[lo]) else [])
  }

  /** The rocket loop adds exactly 200 particles per exploding rocket, and
      every one of them sits where an exploding rocket ended up, in its
      colour, fully opaque. */
  lemma {:induction false} ExplosionsShape(post: seq<Rockets.RocketState>, bursts: seq<seq<Particles.BurstDraw>>, lo: nat)
    requires lo <= |post| && BurstDrawsFor(bursts, |post|)
    ensures |Explosions(post, bursts, lo)| == ParticlesPerExplosion * ExplodingCount(post, lo)
    ensures forall q :: q in Explosions(post, bursts, lo) ==>
              exists k :: lo <= k < |post| && Rockets.Explodes(post[k])
                && q.x == post[k].x && q.y == post[k].y && q.color == post[k].color && q.alpha == 1.0
    decreases |post| - lo
  {
    if lo < |post| {
      ExplosionsShape(post, bursts, lo + 1);
      var r := post[lo];
      var tail := if Rockets.Explodes(r) then Explosion(r.x, r.y, r.color, bursts[lo]) else [];
      assert Explosions(post, bursts, lo) == Explosions(post, bursts, lo + 1) + tail;
      forall q | q in Explosions(post, bursts, lo)
        ensures exists k :: (lo <= k < |post| && Rockets.Explodes(post[k])
                               && q.x == post[k].x && q.y == post[k].y && q.color == post[k].color && q.alpha == 1.0)
      {
        if q !in Explosions(post, bursts, lo + 1) {
          assert q in tail;
          assert Rockets.Explodes(post[lo]);
        }
      }
    }
  }

  /** The loop's additions for the rockets k.. come first among those for
      the rockets lo.. when lo <= k: the loop reaches rocket k before any
      rocket below it. */
  lemma {:induction false} ExplosionsPrefix(post: seq<Rockets.RocketState>, bursts: seq<seq<Particles.BurstDraw>>, lo: nat, k: nat)
    requires lo <= k <= |post| && BurstDrawsFor(bursts, |post|)
    ensures |Explosions(post, bursts, k)| <= |Explosions(post, bursts, lo)|
    ensures Explosions(post, bursts, lo)[..|Explosions(post, bursts, k)|] == Explosions(post, bursts, k)
    decreases k - lo
  {
    if lo < k {
      ExplosionsPrefix(post, bursts, lo + 1, k);
      var inner, outer := Explosions(post, bursts, lo + 1), Explosions(post, bursts, lo);
      assert outer[..|inner|] == inner;
      assert outer[..|inner|][..|Explosions(post, bursts, k)|] == outer[..|Explosions(post, bursts, k)|];
    }
  }

  /** Each exploding rocket k has its own block of 200 particles among the
      loop's additions: the block right after the additions for the rockets
      above k, holding exactly the explosion at rocket k's position, in its
      colour, from its own draws. */
  lemma ExplosionBlock(post: seq<Rockets.RocketState>, bursts: seq<seq<Particles.BurstDraw>>, lo: nat, k: nat)
    requires lo <= k < |post| && BurstDrawsFor(bursts, |post|) && Rockets.Explodes(post[k])
    ensures var off := ParticlesPerExplosion * ExplodingCount(post, k + 1);
      && off + ParticlesPerExplosion <= |Explosions(post, bursts, lo)|
      && Explosions(post, bursts, lo)[off..off + ParticlesPerExplosion]
           == Explosion(post[k].x, post[k].y, post[k].color, bursts[k])
  {
    ExplosionsPrefix(post, bursts, lo, k);
    var off := ParticlesPerExplosion * ExplodingCount(post, k + 1);
    var mine := Explosions(post, bursts, k);
    var blast := Explosion(post[k].x, post[k].y, post[k].color, bursts[k]);
    assert mine == Explosions(post, bursts, k + 1) + blast;
    assert mine[off..off + ParticlesPerExplosion] == blast;
    var all := Explosions(post, bursts, lo);
    assert all[..|mine|][off..off + ParticlesPerExplosion] == all[off..off + ParticlesPerExplosion];
  }

  /** The rocket loop's census: every rocket either survives or explodes, so
      the live list shrinks by exactly the number of explosions. */
  lemma {:induction false} RocketCensus<T>(xs: seq<T>, post: seq<Rockets.RocketState>, lo: nat)
    requires |xs| == |post| && lo <= |post|
    ensures |Kept(xs, Unexploded(post), lo)| + ExplodingCount(post, lo) == |post| - lo
    decreases |post| - lo
  {
    if lo < |post| {
      RocketCensus(xs, post, lo + 1);
    }
  }

  /** What the particle loop leaves: when every particle of a list without
      repeats has been updated to post, the ones whose updated opacity is
      positive form a list without repeats, all with opacity above 0. */
  lemma ParticleCull(ps: seq<Particles.Particle>, post: seq<Particles.ParticleState>)
    requires Distinct(ps) && |post| == |ps|
    requires forall k :: 0 <= k < |ps| ==> ps[k].State() == post[k] && ps[k].Valid()
    ensures ParticleStates(ps) == post
    ensures var live := Kept(ps, Unburnt(post), 0);
      && Distinct(live)
      && forall j :: 0 <= j < |live| ==> live[j].Valid() && !Particles.Burnt(live[j].State())
  {
    var keep := Unburnt(post);
    KeptDistinct(ps, keep, 0);
    KeptByIndex(ps, keep, 0);
    var live, idx := Kept(ps, keep, 0), KeptIndices(keep, 0);
    forall j | 0 <= j < |live|
      ensures live[j].Valid() && !Particles.Burnt(live[j].State())
    {
      assert live[j] == ps[idx[j]] && keep[idx[j]];
    }
  }

  /** The states of a list are the states of its two halves. */
  lemma ParticleStatesSplit(ps: seq<Particles.Particle>, n: nat)
    requires n <= |ps|
    ensures ParticleStates(ps) == ParticleStates(ps[..n]) + ParticleStates(ps[n..])
  {
  }

  /** What the rocket loop leaves: when every rocket of a list without
      repeats has been updated to post, the ones below the explosion
      threshold form a list without repeats, none of them at the threshold. */
  lemma RocketCull(rs: seq<Rockets.Rocket>, post: seq<Rockets.RocketState>)
    requires Distinct(rs) && |post| == |rs|
    requires forall k :: 0 <= k < |rs| ==> rs[k].State() == post[k] && rs[k].Valid()
    ensures RocketStates(rs) == post
    ensures var live := Kept(rs, Unexploded(post), 0);
      && Distinct(live)
      && forall j :: 0 <= j < |live| ==> live[j].Valid() && !Rockets.Explodes(live[j].State())
  {
    var keep := Unexploded(post);
    KeptDistinct(rs, keep, 0);
    KeptByIndex(rs, keep, 0);
    var live, idx := Kept(rs, keep, 0), KeptIndices(keep, 0);
    forall j | 0 <= j < |live|
      ensures live[j].Valid() && !Rockets.Explodes(live[j].State())
    {
      assert live[j] == rs[idx[j]] && keep[idx[j]];
    }
  }

  /** The closure state of the animation: the live rockets and particles and
      the canvas size. */
  class Show {
    var rockets: seq<Rockets.Rocket>
    var particles: seq<Particles.Particle>
    var w: nat
    var h: nat

    /** Between frames no object is listed twice, no rocket has reached the
        explosion threshold and no particle has burnt out. */
    ghost predicate Valid()
      reads this, rockets, particles
    {
      RocketsValid() && ParticlesValid()
    }

    ghost predicate RocketsValid()
      reads this`rockets, rockets
    {
      && Distinct(rockets)
      && forall k :: 0 <= k < |rockets| ==> rockets[k].Valid() && !Rockets.Explodes(rockets[k].State())
    }

    ghost predicate ParticlesValid()
      reads this`particles, particles
    {
      && Distinct(particles)
      && forall k :: 0 <= k < |particles| ==> particles[k].Valid() && !Particles.Burnt(particles[k].State())
    }

    constructor (w: nat, h: nat)
      ensures Valid() && rockets == [] && particles == []
      ensures this.w == w && this.h == h
    {
      rockets := [];
      particles := [];
      this.w := w;
      this.h := h;
    }

    /** The launch block: appends SpawnCount new rockets, centred during the
        opening beat, and removes nothing. */
    method Spawn(shooting: bool, elapsed: int, u: real, launches: seq<Rockets.LaunchDraw>)
      requires Valid() && IsUnit(u) && LaunchDrawsOk(launches)
      modifies this`rockets
      ensures Valid()
      ensures |rockets| == |old(rockets)| + Emission.SpawnCount(shooting, elapsed, |old(rockets)|, u)
      ensures rockets[..|old(rockets)|] == old(rockets)
      ensures forall k :: |old(rockets)| <= k < |rockets| ==>
                fresh(rockets[k])
                && rockets[k].State() == Rockets.Launch(Emission.Centered(elapsed), w as real, h as real, launches[k - |old(rockets)|])
    {
      if shooting {
        if elapsed < Emission.OpeningMs {
          if |rockets| == 0 && u < Emission.OpeningChance {
            var r := new Rockets.Rocket(true, w as real, h as real, launches[0]);
            rockets := rockets + [r];
          }
        } else {
          var spawnChance := 0.02;
          spawnChance := spawnChance + (elapsed as real / 20000.0) * 0.1;
          var count := Ceil(1.0 + elapsed as real / 10000.0);
          if u < spawnChance {
            LaunchBurst(Min(count, Emission.MaxBurst), launches);
          }
        }
      }
    }

    /** The burst loop: n rockets, none of them centred, appended in order. */
    method LaunchBurst(n: nat, launches: seq<Rockets.LaunchDraw>)
      requires RocketsValid() && n <= |launches| && forall d :: d in launches ==> d.Valid()
      modifies this`rockets
      ensures RocketsValid()
      ensures |rockets| == |old(rockets)| + n && rockets[..|old(rockets)|] == old(rockets)
      ensures forall k :: |old(rockets)| <= k < |rockets| ==>
                fresh(rockets[k])
                && rockets[k].State() == Rockets.Launch(false, w as real, h as real, launches[k - |old(rockets)|])
    {
      var k := 0;
      while k < n
        invariant 0 <= k <= n
        invariant |rockets| == |old(rockets)| + k && rockets[..|old(rockets)|] == old(rockets)
        invariant forall j :: |old(rockets)| <= j < |rockets| ==>
                    fresh(rockets[j])
                    && rockets[j].State() == Rockets.Launch(false, w as real, h as real, launches[j - |old(rockets)|])
        invariant RocketsValid()
      {
        var r := new Rockets.Rocket(false, w as real, h as real, launches[k]);
        rockets := rockets + [r];
        k := k + 1;
      }
    }

    /** The inner loop of an explosion: 200 new particles at (x, y) in the
        given colour, appended to the live list. */
    method Explode(x: real, y: real, color: Color, ds: seq<Particles.BurstDraw>)
      requires BurstDrawsOk(ds) && ParticlesValid()
      modifies this`particles
      ensures ParticlesValid()
      ensures |particles| == |old(particles)| + ParticlesPerExplosion
      ensures particles[..|old(particles)|] == old(particles)
      ensures forall k :: |old(particles)| <= k < |particles| ==> fresh(particles[k])
      ensures ParticleStates(particles[|old(particles)|..]) == Explosion(x, y, color, ds)
      ensures forall k :: 0 <= k < |particles| ==> particles[k] in old(particles) || fresh(particles[k])
    {
      ghost var base := particles;
      var j := 0;
      while j < ParticlesPerExplosion
        invariant 0 <= j <= ParticlesPerExplosion
        invariant |particles| == |base| + j && particles[..|base|] == base
        invariant forall k :: |base| <= k < |particles| ==>
                    fresh(particles[k]) && particles[k].State() == Particles.Spawn(x, y, color, ds[k - |base|])
        invariant ParticlesValid()
      {
        var p := new Particles.Particle(x, y, color, ds[j]);
        particles := particles + [p];
        j := j + 1;
      }
      forall k | 0 <= k < |base|
        ensures particles[k] in base
      {
        assert particles[..|base|][k] == particles[k];
      }
    }

    /** The rocket half of the rocket loop's invariant at index i: rockets
        0..i are not updated yet and still listed; those above i are updated,
        and exactly the ones that did not explode are still listed, in order. */
    ghost predicate RocketLoop(orig: seq<Rockets.Rocket>, pre: seq<Rockets.RocketState>,
                               post: seq<Rockets.RocketState>, i: int)
      reads this`rockets, orig
    {
      && -1 <= i < |orig| && |pre| == |orig| && Distinct(orig)
      && post == StepRockets(pre)
      && rockets == orig[..i + 1] + Kept(orig, Unexploded(post), i + 1)
      && (forall k :: 0 <= k < |orig| ==>
            orig[k].Valid() && orig[k].State() == if k <= i then pre[k] else post[k])
    }

    /** The particle half of the rocket loop's invariant at index i: the
        particle list has grown past base by the explosions of the rockets
        above i, and no particle in it has burnt out. */
    ghost predicate ExplosionsLoop(post: seq<Rockets.RocketState>, base: seq<Particles.Particle>,
                                   bursts: seq<seq<Particles.BurstDraw>>, i: int)
      reads this`particles, particles
    {
      && -1 <= i < |post| && BurstDrawsFor(bursts, |post|)
      && |base| <= |particles| && particles[..|base|] == base
      && ParticlesValid()
      && ParticleStates(particles[|base|..]) == Explosions(post, bursts, i + 1)
    }

    /** The rocket loop's invariant at index i. */
    ghost predicate RocketPass(orig: seq<Rockets.Rocket>, pre: seq<Rockets.RocketState>,
                               post: seq<Rockets.RocketState>, base: seq<Particles.Particle>,
                               bursts: seq<seq<Particles.BurstDraw>>, i: int)
      reads this`rockets, this`particles, orig, particles
    {
      RocketLoop(orig, pre, post, i) && ExplosionsLoop(post, base, bursts, i)
    }

    /** The explosion of rocket i, whose updated state post[i] has reached the
        threshold: its 200 particles at its position, in its colour. */
    method AddExplosion(ghost post: seq<Rockets.RocketState>, ghost base: seq<Particles.Particle>,
                        bursts: seq<seq<Particles.BurstDraw>>, i: int, x: real, y: real, color: Color)
      requires 0 <= i && ExplosionsLoop(post, base, bursts, i) && Rockets.Explodes(post[i])
      requires x == post[i].x && y == post[i].y && color == post[i].color
      modifies this`particles
      ensures ExplosionsLoop(post, base, bursts, i - 1)
      ensures forall k :: 0 <= k < |particles| ==> particles[k] in old(particles) || fresh(particles[k])
    {
      ghost var added := particles;
      Explode(x, y, color, bursts[i]);
      ParticleStatesSplit(particles[|base|..], |added| - |base|);
      assert particles[|base|..][..|added| - |base|] == added[|base|..];
      assert particles[|base|..][|added| - |base|..] == particles[|added|..];
    }

    /** One pass of the rocket loop, at index i: update rocket i; when its
        vertical speed has reached the threshold, add its explosion and
        splice it out. */
    method UpdateRocketAt(i: int, ghost orig: seq<Rockets.Rocket>, ghost pre: seq<Rockets.RocketState>,
                          ghost post: seq<Rockets.RocketState>, ghost base: seq<Particles.Particle>,
                          bursts: seq<seq<Particles.BurstDraw>>)
      requires 0 <= i && RocketPass(orig, pre, post, base, bursts, i)
      modifies this`rockets, this`particles, orig[i]
      ensures RocketPass(orig, pre, post, base, bursts, i - 1)
      ensures forall k :: 0 <= k < |particles| ==> particles[k] in old(particles) || fresh(particles[k])
    {
      SpliceStep(orig, Unexploded(post), i, rockets);
      var rocket := rockets[i];
      rocket.Update();
      assert rocket.State() == post[i];
      assert ExplosionsLoop(post, base, bursts, i);
      if rocket.vy >= Rockets.ExplosionVy {
        AddExplosion(post, base, bursts, i, rocket.x, rocket.y, rocket.color);
        rockets := rockets[..i] + rockets[i + 1..];
      } else {
        assert Explosions(post, bursts, i) == Explosions(post, bursts, i + 1);
      }
    }

    /** The rocket loop: every live rocket is updated once; exactly those that
        reach the explosion threshold are spliced out, the others keeping their
        order; each one spliced out leaves its 200 particles behind. */
    method UpdateRockets(bursts: seq<seq<Particles.BurstDraw>>)
      requires Valid() && BurstDrawsFor(bursts, |rockets|)
      modifies this`rockets, this`particles, rockets
      ensures Valid()
      ensures RocketStates(old(rockets)) == StepRockets(old(RocketStates(rockets)))
      ensures rockets == Kept(old(rockets), Unexploded(RocketStates(old(rockets))), 0)
      ensures |rockets| <= |old(rockets)| && forall r :: r in rockets ==> r in old(rockets)
      ensures |old(particles)| <= |particles| && particles[..|old(particles)|] == old(particles)
      ensures forall k :: 0 <= k < |particles| ==> particles[k] in old(particles) || fresh(particles[k])
      ensures ParticleStates(particles[|old(particles)|..]) == Explosions(RocketStates(old(rockets)), bursts, 0)
      ensures ParticleStates(old(particles)) == old(ParticleStates(particles))
    {
      ghost var orig, base := rockets, particles;
      ghost var pre := RocketStates(rockets);
      ghost var post := StepRockets(pre);
      RocketPassStart(bursts);
      RocketPassLoop(orig, pre, post, base, bursts);
      RocketPassDone(orig, pre, post, base, bursts);
    }

    /** The loop itself, from the top index down to 0. */
    method RocketPassLoop(ghost orig: seq<Rockets.Rocket>, ghost pre: seq<Rockets.RocketState>,
                          ghost post: seq<Rockets.RocketState>, ghost base: seq<Particles.Particle>,
                          bursts: seq<seq<Particles.BurstDraw>>)
      requires RocketPass(orig, pre, post, base, bursts, |orig| - 1)
      modifies this`rockets, this`particles, orig
      ensures RocketPass(orig, pre, post, base, bursts, -1)
      ensures forall k :: 0 <= k < |particles| ==> particles[k] in base || fresh(particles[k])
    {
      var i := |rockets| - 1;
      while i >= 0
        invariant RocketPass(orig, pre, post, base, bursts, i)
        invariant forall k :: 0 <= k < |particles| ==> particles[k] in base || fresh(particles[k])
      {
        UpdateRocketAt(i, orig, pre, post, base, bursts);
        i := i - 1;
      }
    }

    /** Before the rocket loop its invariant holds at the top index. */
    lemma RocketPassStart(bursts: seq<seq<Particles.BurstDraw>>)
      requires RocketsValid() && ParticlesValid() && BurstDrawsFor(bursts, |rockets|)
      ensures var pre := RocketStates(rockets);
        RocketPass(rockets, pre, StepRockets(pre), particles, bursts, |rockets| - 1)
    {
      assert rockets[..|rockets|] == rockets;
      assert particles[|particles|..] == [];
    }

    /** After the rocket loop: both lists are valid again, the rockets left
        are the unexploded ones, and the particles added are the explosions. */
    lemma RocketPassDone(orig: seq<Rockets.Rocket>, pre: seq<Rockets.RocketState>,
                         post: seq<Rockets.RocketState>, base: seq<Particles.Particle>,
                         bursts: seq<seq<Particles.BurstDraw>>)
      requires RocketPass(orig, pre, post, base, bursts, -1)
      ensures RocketsValid() && ParticlesValid()
      ensures RocketStates(orig) == post
      ensures rockets == Kept(orig, Unexploded(post), 0)
      ensures |rockets| <= |orig| && forall r :: r in rockets ==> r in orig
      ensures |base| <= |particles| && particles[..|base|] == base
      ensures ParticleStates(particles[|base|..]) == Explosions(post, bursts, 0)
    {
      assert rockets == Kept(orig, Unexploded(post), 0);
      RocketCull(orig, post);
      forall r | r in rockets ensures r in orig {
        KeptMember(orig, Unexploded(post), 0, r);
      }
    }

    /** The invariant of the particle loop at index i: particles 0..i are not
        updated yet and still listed; those above i are updated, and exactly
        the ones still visible are listed, in order. */
    ghost predicate ParticleLoop(orig: seq<Particles.Particle>, pre: seq<Particles.ParticleState>,
                                 post: seq<Particles.ParticleState>, i: int)
      reads this`particles, orig
    {
      && -1 <= i < |orig| && |pre| == |orig| && Distinct(orig)
      && post == StepParticles(pre)
      && particles == orig[..i + 1] + Kept(orig, Unburnt(post), i + 1)
      && (forall k :: 0 <= k < |orig| ==>
            orig[k].Valid() && orig[k].State() == if k <= i then pre[k] else post[k])
    }

    /** One pass of the particle loop, at index i: update particle i and
        splice it out when its opacity has dropped to 0 or below. */
    method UpdateParticleAt(i: int, ghost orig: seq<Particles.Particle>,
                            ghost pre: seq<Particles.ParticleState>, ghost post: seq<Particles.ParticleState>)
      requires 0 <= i && ParticleLoop(orig, pre, post, i)
      modifies this`particles, orig[i]
      ensures ParticleLoop(orig, pre, post, i - 1)
    {
      SpliceStep(orig, Unburnt(post), i, particles);
      var p := particles[i];
      p.Update();
      if p.alpha <= 0.0 {
        particles := particles[..i] + particles[i + 1..];
      }
    }

    /** The particle loop: every live particle is updated once, and exactly
        those whose opacity has dropped to 0 or below are spliced out, the
        others keeping their order. */
    method UpdateParticles(ghost rs: seq<Rockets.Rocket>)
      requires Valid()
      modifies this`particles, particles
      ensures Valid()
      ensures RocketStates(rs) == old(RocketStates(rs))
      ensures ParticleStates(old(particles)) == StepParticles(old(ParticleStates(particles)))
      ensures particles == Kept(old(particles), Unburnt(ParticleStates(old(particles))), 0)
    {
      ghost var orig := particles;
      ghost var pre := ParticleStates(particles);
      ghost var post := StepParticles(pre);
      ParticlePassStart();
      ParticlePassLoop(orig, pre, post);
      ParticlePassDone(orig, pre, post);
    }

    /** The loop itself, from the top index down to 0. */
    method ParticlePassLoop(ghost orig: seq<Particles.Particle>, ghost pre: seq<Particles.ParticleState>,
                            ghost post: seq<Particles.ParticleState>)
      requires ParticleLoop(orig, pre, post, |orig| - 1)
      modifies this`particles, orig
      ensures ParticleLoop(orig, pre, post, -1)
    {
      var i := |particles| - 1;
      while i >= 0
        invariant ParticleLoop(orig, pre, post, i)
      {
        UpdateParticleAt(i, orig, pre, post);
        i := i - 1;
      }
    }

    /** Before the particle loop its invariant holds at the top index. */
    lemma ParticlePassStart()
      requires ParticlesValid()
      ensures var pre := ParticleStates(particles);
        ParticleLoop(particles, pre, StepParticles(pre), |particles| - 1)
    {
      assert particles[..|particles|] == particles;
    }

    /** After the particle loop: the particles left are the unburnt ones, and
        the list is valid again. */
    lemma ParticlePassDone(orig: seq<Particles.Particle>, pre: seq<Particles.ParticleState>,
                           post: seq<Particles.ParticleState>)
      requires ParticleLoop(orig, pre, post, -1)
      ensures ParticlesValid()
      ensures ParticleStates(orig) == post
      ensures particles == Kept(orig, Unburnt(post), 0)
    {
      assert particles == Kept(orig, Unburnt(post), 0);
      ParticleCull(orig, post);
    }

    /** The two update loops of a frame: the rocket loop, then the particle
        loop. Every rocket is updated once and the unexploded ones stay, in
        order; mid is the particle list between the loops, the old particles
        followed by the explosions; every particle of it is updated once and
        the still-visible ones stay, in order. */
    method Advance(bursts: seq<seq<Particles.BurstDraw>>) returns (ghost mid: seq<Particles.Particle>)
      requires Valid() && BurstDrawsFor(bursts, |rockets|)
      modifies this`rockets, this`particles, rockets, particles
      ensures Valid()
      ensures RocketStates(old(rockets)) == StepRockets(old(RocketStates(rockets)))
      ensures rockets == Kept(old(rockets), Unexploded(RocketStates(old(rockets))), 0)
      ensures |rockets| <= |old(rockets)| && forall r :: r in rockets ==> r in old(rockets)
      ensures |old(particles)| <= |mid| && mid[..|old(particles)|] == old(particles)
      ensures ParticleStates(mid) ==
                StepParticles(old(ParticleStates(particles)) + Explosions(RocketStates(old(rockets)), bursts, 0))
      ensures particles == Kept(mid, Unburnt(ParticleStates(mid)), 0)
    {
      ghost var ps0 := ParticleStates(particles);
      ghost var base := particles;
      UpdateRockets(bursts);
      ghost var post := RocketStates(old(rockets));
      ghost var live := rockets;
      mid := particles;
      ParticleStatesSplit(mid, |base|);
      assert mid[..|base|] == base;
      assert ParticleStates(mid) == ps0 + Explosions(post, bursts, 0);
      UpdateParticles(old(rockets));
      assert RocketStates(old(rockets)) == post && rockets == live;
    }

    /** One frame without its drawing: the launch logic, then the two update
        loops. Between frames the show stays valid; while not shooting no
        rocket is added; a frame adds at most three. */
    method Frame(shooting: bool, elapsed: int, u: real,
                 launches: seq<Rockets.LaunchDraw>, bursts: seq<seq<Particles.BurstDraw>>)
      requires Valid() && IsUnit(u) && LaunchDrawsOk(launches)
      requires BurstDrawsFor(bursts, |rockets| + Emission.MaxBurst)
      modifies this`rockets, this`particles, rockets, particles
      ensures Valid()
      ensures !shooting ==> forall r :: r in rockets ==> r in old(rockets)
      ensures |rockets| <= |old(rockets)| + Emission.MaxBurst
    {
      Spawn(shooting, elapsed, u, launches);
      ghost var mid := Advance(bursts);
    }
  }
}
