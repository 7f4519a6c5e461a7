# Fireworks simulation, modelled in Dafny

This project models the simulation at the heart of the `Fireworks` canvas
component of a New Year countdown page. Each animation frame the component:

- may launch rockets from the bottom edge, following a schedule that ramps up
  with the time since the animation started;
- updates every rocket (trail, position, gravity) and turns each rocket whose
  vertical speed has decayed to -1.5 into 200 particles;
- updates every particle (drag, gravity, fading) and removes those that have
  faded out.

Both removals happen inside reverse-index loops that splice the live lists
in place.

The model keeps the source's form:

- `Rockets.Rocket` and `Particles.Particle` are classes with the source's
  fields. Their `Update` methods are proved against the pure step functions
  `Rockets.Step` and `Particles.Step`.
- `Simulation.Show` holds the two live lists, which are closure variables in
  the source. Its methods run the launch block and the two splice loops.
  The loops are proved against sequence-level specifications: every object
  updated once, the list afterwards equal to `Culling.Kept` of the old list,
  and the appended particles equal to `Simulation.Explosions`.
- `Math.random()` draws are parameters: a unit value `u` in [0, 1).
- The elapsed milliseconds are a parameter.
- The canvas size is stored in the show.

Modules:

- `Common`: points, colours, and the `random(min, max)` helper.
- `Rockets`: the `Rocket` class, its step, and closed forms for n steps.
- `Particles`: the `Particle` class, its step, and closed forms for n steps.
- `Emission`: the progressive launch rule.
- `Culling`: what a reverse-index splice loop leaves.
- `Simulation`: the explosion and the frame's three blocks.

## Model

| member | source | states |
|---|---|---|
| Common.Random | app/components/Fireworks.tsx:40 | `random(min, max)` for a draw in [0, 1) lies in [min, max), or is exactly min when min = max |
| Common.Ceil | app/components/Fireworks.tsx:177 | `Math.ceil`: the least integer not below x |
| Common.Min | app/components/Fireworks.tsx:180 | `Math.min`: a lower bound of both arguments, equal to one of them |
| Rockets.Launch | app/components/Fireworks.tsx:51-65 | a new rocket's position: within 10 px of the centre when forced, otherwise in the middle 80% of the width. It sits on the bottom edge with an empty trail, vy in [-13, -9), vx in [-1.5, 1.5), hue in [0, 360), thickness in [3, 5) |
| Rockets.Rocket.constructor | app/components/Fireworks.tsx:51-65 | the new object's state is `Launch` of the same draws, and its trail is within capacity |
| Rockets.StepTrail | app/components/Fireworks.tsx:89-90 | after an update the trail ends at the position updated from. It grows by that point below 8 entries, drops its oldest entry at 8 or more, and never exceeds 8 |
| Rockets.Step | app/components/Fireworks.tsx:88-95 | an update keeps vx, colour and thickness and strictly raises vy. So a rocket that meets the explode condition still meets it afterwards |
| Rockets.Explodes | app/components/Fireworks.tsx:194 | the explode test `vy >= -1.5`, read after the update. It has no contract of its own; `Rockets.FlightLength` and `Rockets.Step` state what it implies |
| Rockets.Rocket.Update | app/components/Fireworks.tsx:88-95 | the object's new state is `Step` of its old state, and a trail within capacity stays within capacity |
| Rockets.SpeedAfter | app/components/Fireworks.tsx:94 | after n updates vx is unchanged and vy has grown by 0.08·n. Colour and thickness are unchanged |
| Rockets.DriftAfter | app/components/Fireworks.tsx:92 | after n updates x has moved by n·vx |
| Rockets.HeightAfter | app/components/Fireworks.tsx:93-94 | after n updates y has moved by n·vy + 0.04·n·(n-1) |
| Rockets.TrailAfter | app/components/Fireworks.tsx:89-90 | after n updates the trail holds min(initial length + n, 8) points |
| Rockets.AfterClosedForm | app/components/Fireworks.tsx:88-95 | the closed form of n updates, all fields together |
| Rockets.FlightLength | app/components/Fireworks.tsx:190-194 | a rocket launched with vy in [-13, -9) has not reached the explode condition after 93 updates, and has reached it after 144 |
| Particles.Spawn | app/components/Fireworks.tsx:109-122 | a new particle is at the given point in the given colour and fully opaque. Its decay is in [0.008, 0.015), its size in [2, 4), and its speed in [5, 12) |
| Particles.Particle.constructor | app/components/Fireworks.tsx:109-122 | the new object's state is `Spawn` of the same draws, with its decay in range |
| Particles.Step | app/components/Fireworks.tsx:148-155 | an update strictly lowers the opacity when the decay is positive, so a burnt-out particle stays burnt out. It keeps colour, decay and size |
| Particles.Burnt | app/components/Fireworks.tsx:209 | the removal test `alpha <= 0`, read after the update. It has no contract of its own; `Particles.Lifetime` and `Particles.Step` state what it implies |
| Particles.Particle.Update | app/components/Fireworks.tsx:148-155 | the object's new state is `Step` of its old state, and the decay stays in range |
| Particles.SideSpeedAfter | app/components/Fireworks.tsx:151 | after n updates vx is 0.95^n·vx |
| Particles.FallSpeedAfter | app/components/Fireworks.tsx:152-153 | after n updates vy is 0.95^n·vy + 1.2·(1 - 0.95^n): it tends to the terminal speed 1.2 |
| Particles.VelocityAfter | app/components/Fireworks.tsx:151-153 | both velocity components after n updates, in closed form |
| Particles.TravelAfter | app/components/Fireworks.tsx:149-153 | the distance travelled is 20 times the speed lost, plus 1.2 per frame downwards |
| Particles.PositionAfter | app/components/Fireworks.tsx:149-153 | the position after n updates in closed form in 0.95^n |
| Particles.FadeAfter | app/components/Fireworks.tsx:154 | after n updates the opacity has dropped by exactly n·decay. Colour, decay and size are unchanged |
| Particles.FadesEachFrame | app/components/Fireworks.tsx:154 | the opacity strictly decreases from each frame to the next |
| Particles.Lifetime | app/components/Fireworks.tsx:207-209 | a new particle is still visible (opacity above 0) after up to 66 updates, and has faded out from 125 updates on, so the particle loop removes it |
| Emission.SpawnChance | app/components/Fireworks.tsx:168-176 | after the opening beat the per-frame launch chance is at least 0.035, and certain from 196 s on |
| Emission.BurstSize | app/components/Fireworks.tsx:177-180 | a burst launches 2 rockets up to 10 s in and 3 after that. It is never 1 |
| Emission.SpawnCount | app/components/Fireworks.tsx:166-185 | the number of rockets a frame launches, in each case. None when not shooting. During the first 3 s, one exactly when no rocket is live and the draw is below 0.05. Afterwards, a full burst exactly when the draw is below the chance, otherwise none. Always at most 3, and exactly 3 from 196 s on |
| Culling.Kept | app/components/Fireworks.tsx:205-212 | the list a reverse splice loop leaves has as many entries as there are set flags |
| Culling.KeptIndicesFlagged | app/components/Fireworks.tsx:209-211 | every position the loop keeps is in range and flagged |
| Culling.KeptIndicesAscending | app/components/Fireworks.tsx:205-212 | the kept positions are strictly ascending |
| Culling.KeptIndicesComplete | app/components/Fireworks.tsx:209-211 | every flagged position is kept |
| Culling.KeptAt | app/components/Fireworks.tsx:205-212 | the kept list is the original read at the kept positions |
| Culling.KeptByIndex | app/components/Fireworks.tsx:205-212 | the kept list is exactly the flagged entries, in their original order: nothing flagged is lost and nothing unflagged survives |
| Culling.SpliceStep | app/components/Fireworks.tsx:209-211 | one iteration at index i: `splice(i, 1)` on a clear flag, or leaving the entry on a set flag, extends the culled suffix down to i |
| Culling.KeptMember | app/components/Fireworks.tsx:205-212 | an object survives if and only if one of its occurrences is flagged |
| Culling.KeptDistinct | app/components/Fireworks.tsx:205-212 | splicing never introduces repeats |
| Simulation.Explosion | app/components/Fireworks.tsx:196-199 | an explosion is 200 particles, all at the rocket's position, in its colour, fully opaque |
| Simulation.Explosions | app/components/Fireworks.tsx:188-202 | everything the rocket loop appends, in loop order (the last rocket first): 200 particles per exploding rocket |
| Simulation.ExplosionsPrefix | app/components/Fireworks.tsx:188-199 | what the loop appends for the rockets above index k comes before what it appends for the rockets below k |
| Simulation.ExplosionBlock | app/components/Fireworks.tsx:194-199 | each exploding rocket k owns one block of 200 particles, right after those of the rockets above it. The block is exactly the explosion at rocket k's updated position, in its colour, from its own draws |
| Simulation.ExplosionsShape | app/components/Fireworks.tsx:194-200 | the rocket loop adds exactly 200 particles per exploding rocket. Each sits where an exploding rocket ended up, in its colour |
| Simulation.RocketCensus | app/components/Fireworks.tsx:188-202 | every rocket either survives or explodes: survivors plus explosions equal the rockets updated |
| Simulation.RocketCull | app/components/Fireworks.tsx:188-202 | after the updates, the surviving rockets form a repeat-free list in which none satisfies the explode condition |
| Simulation.ParticleCull | app/components/Fireworks.tsx:205-212 | after the updates, the surviving particles form a repeat-free list in which every one is still visible |
| Simulation.Show.constructor | app/components/Fireworks.tsx:26-29 | the show starts with no rockets and no particles, at the given canvas size |
| Simulation.Show.Spawn | app/components/Fireworks.tsx:166-185 | the launch block appends exactly `SpawnCount` new rockets, centred in the opening beat, and keeps the existing ones. Every new rocket is fresh and in its `Launch` state |
| Simulation.Show.LaunchBurst | app/components/Fireworks.tsx:180-182 | the burst loop appends n fresh uncentred rockets, in draw order |
| Simulation.Show.Explode | app/components/Fireworks.tsx:196-199 | the explosion loop appends 200 fresh particles whose states are `Explosion` of the rocket's position and colour. The old list is kept as a prefix |
| Simulation.Show.AddExplosion | app/components/Fireworks.tsx:194-199 | adding rocket i's explosion extends the rocket loop's particle invariant from index i+1 down to i |
| Simulation.Show.UpdateRocketAt | app/components/Fireworks.tsx:189-201 | one iteration of the rocket loop keeps its invariant, from index i down to i-1 |
| Simulation.Show.RocketPassLoop | app/components/Fireworks.tsx:188-202 | the rocket loop runs from the last index to 0 and keeps its invariant |
| Simulation.Show.UpdateRockets | app/components/Fireworks.tsx:188-202 | every rocket listed before is updated exactly once. The list becomes exactly the unexploded ones in their order. The particle list grows by `Explosions` of the updated states, in loop order. The show stays valid. The particles listed before keep their states |
| Simulation.Show.UpdateParticleAt | app/components/Fireworks.tsx:206-211 | one iteration of the particle loop keeps its invariant, from index i down to i-1 |
| Simulation.Show.ParticlePassLoop | app/components/Fireworks.tsx:205-212 | the particle loop runs from the last index to 0 and keeps its invariant |
| Simulation.Show.UpdateParticles | app/components/Fireworks.tsx:205-212 | every particle listed before is updated exactly once, and the list becomes exactly the still-visible ones in their order. The rocket objects it is given keep their states |
| Simulation.Show.Advance | app/components/Fireworks.tsx:187-212 | the two update loops in sequence. Every rocket is updated once, and the rocket list becomes the unexploded ones in order. The particle list in between is the old one followed by the explosions of the updated rockets. Every particle of it is updated once, and the final list is the still-visible ones in order. The show stays valid |
| Simulation.Show.Frame | app/components/Fireworks.tsx:158-215 | a frame keeps the show valid. It adds no rocket while not shooting, and at most 3 otherwise |

## Left out

- Drawing: `draw()` of both classes, the trail-fade compositing, `requestAnimationFrame` and its cancellation. None of them changes the simulation's state.
- The resize listener (app/components/Fireworks.tsx:33-36) overwrites the canvas size, which the rocket constructor reads for a new rocket's position. In the model the size is the `Show.w`/`Show.h` fields, and that assignment is left to the caller between frames.
- `Date.now()` and `Math.random()` are parameters. Each rocket-constructor call consumes one `LaunchDraw`. The explosion of the rocket at index i consumes the list of 200 `BurstDraw`s at index i. The source's draws come from one stream in call order, so the model assumes nothing about how draws relate.
- `Math.cos` and `Math.sin` are outside the model. A particle's initial velocity is given directly, constrained to a speed in [5, 12), which is what the angle and speed draws yield.
- The particle field `sparkle` is set but never read by the simulation, so it is not modelled.
- The flicker and glitter draws happen inside `draw()` and are not modelled.
- Floating point: all arithmetic is on exact reals. IEEE rounding and the closed forms' exactness under rounding are not modelled.
- The colour string `hsl(<hue>, 100%, 50%)` is kept as its hue. The simulation only copies it.
- Simulation.Show.Frame: its ensures states validity and the bound on rockets added. The exact lists after a frame are the composition of the contracts of `Spawn`, `UpdateRockets` and `UpdateParticles`, each of which states them.
- The page that mounts the component (app/page.tsx) and the countdown (app/components/Countdown.tsx) are not part of this model.
