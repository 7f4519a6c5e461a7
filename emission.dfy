/** The progressive launch logic at the top of each frame: how many rockets
    to add, given whether the show is shooting, the milliseconds elapsed
    since the animation started, how many rockets are live, and the frame's
    `Math.random()` draw u. */
module Emission {
  import opened Common

  /** The opening beat: before this many milliseconds only single centred
      rockets are launched. */
  const OpeningMs: int := 3000
  /** The chance of the opening launch per frame. */
  const OpeningChance: real := 0.05
  /** The most rockets a burst launches. */
  const MaxBurst: int := 3

  /** `spawnChance` after the opening: 0.02 plus 0.1 per 20 seconds, growing
      without bound, so that from 196 seconds on it is certain. */
  function SpawnChance(elapsed: int): (c: real)
    requires elapsed >= OpeningMs
    ensures c >= 0.035
    ensures elapsed >= 196000 ==> c >= 1.0
  {
    0.02 + (elapsed as real / 20000.0) * 0.1
  }

  /** `Math.min(Math.ceil(1 + elapsed / 10000), 3)`: two rockets per burst
      up to ten seconds in, three from then on. */
  function BurstSize(elapsed: int): (k: int)
    requires elapsed >= OpeningMs
    ensures 2 <= k <= MaxBurst
    ensures k == 2 <==> elapsed <= 10000
  {
    Min(Ceil(1.0 + elapsed as real / 10000.0), MaxBurst)
  }

  /** Whether the rockets launched now are the centred opening ones. */
  predicate Centered(elapsed: int) {
    elapsed < OpeningMs
  }

  /** The number of rockets the frame appends. */
  function SpawnCount(shooting: bool, elapsed: int, live: nat, u: real): (k: nat)
    requires IsUnit(u)
    ensures !shooting ==> k == 0
    ensures shooting && Centered(elapsed) ==> k <= 1 && (k == 1 <==> live == 0 && u < OpeningChance)
    ensures shooting && !Centered(elapsed) ==>
              (k == BurstSize(elapsed) <==> u < SpawnChance(elapsed))
              && (k == 0 <==> u >= SpawnChance(elapsed))
    ensures shooting && elapsed >= 196000 ==> k == MaxBurst
    ensures k <= MaxBurst
  {
    if !shooting then 0
    else if elapsed < OpeningMs then (if live == 0 && u < OpeningChance then 1 else 0)
    else if u < SpawnChance(elapsed) then BurstSize(elapsed)
    else 0
  }
}
