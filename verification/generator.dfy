/** The initial-condition generator for a disc around one star or a binary:
    the bookkeeping around the physics. Particle identifiers and masses,
    the stars' identifiers, order, positions and velocities, the planet's
    identifier and enclosed mass, the tangential velocity of each disc
    particle, and the slots of the point array handed to the gravity tree.

    Random sampling and the density, temperature and scale-height formulas
    are not modelled: each disc particle's sampled values arrive as a
    `DiscSample`. Square roots and trigonometric values arrive as
    parameters (`norm`, `cosInc`, `sinInc`, `orbitalSpeed`, ...). */
module Generator {
  import opened Wrappers
  import opened Geometry
  import opened Sequences
  import opened Particles

  /** The type code the generator gives stars and planets. */
  const SinkType: int := -1

  /** The type code of gas particles. */
  const GasType: int := 1

  // ---------------------------------------------------------------------
  // The disc
  // ---------------------------------------------------------------------

  /** What the sampling and the physical formulas produce for one particle. */
  datatype DiscSample = DiscSample(x: real, y: real, z: real, temp: real, h: real, dens: real,
                                   energy: real, sigma: real)

  function DiscParticle(i: nat, m: real, s: DiscSample, norm: Vec3 -> real): Particle
  {
    var pos := Vec3(s.x, s.y, s.z);
    Blank.(id := i, pos := pos, r := norm(pos), temp := s.temp, h := s.h, dens := s.dens,
           mass := m, energy := s.energy, sigma := s.sigma, kind := GasType)
  }

  /** Particle `i` gets identifier `i`, the sampled values, gas type and an
      equal share of the disc mass. */
  function CreateDisc(mDisc: real, samples: seq<DiscSample>, norm: Vec3 -> real): (r: seq<Particle>)
    ensures |r| == |samples|
    ensures forall i :: 0 <= i < |r| ==>
              && r[i].id == i && r[i].kind == GasType
              && r[i].pos == Vec3(samples[i].x, samples[i].y, samples[i].z)
              && r[i].r == norm(r[i].pos)
              && r[i].mass == mDisc / |samples| as real
  {
    seq(|samples|, i requires 0 <= i < |samples| => DiscParticle(i, mDisc / |samples| as real, samples[i], norm))
  }

  /** The equal shares add back up to the disc mass. */
  lemma DiscMassIsTotal(mDisc: real, samples: seq<DiscSample>, norm: Vec3 -> real)
    requires |samples| >= 1
    ensures TotalMass(CreateDisc(mDisc, samples, norm)) == mDisc
  {
    var n := |samples| as real;
    UniformTotal(CreateDisc(mDisc, samples, norm), mDisc / n);
    assert n * (mDisc / n) == mDisc;
  }

  // ---------------------------------------------------------------------
  // The stars
  // ---------------------------------------------------------------------

  /** The stars' configuration: masses, smoothing length, and the binary's
      separation, eccentricity and the cosine and sine of its inclination. */
  datatype Stars = Stars(mStar: real, mBinary: real, smoothing: real, sep: real, ecc: real,
                         cosInc: real, sinInc: real)

  function TotalStarMass(st: Stars): real { st.mStar + st.mBinary }

  /** The primary's and the companion's positions. */
  function PrimaryPosition(st: Stars): Vec3
    requires TotalStarMass(st) != 0.0
  {
    var tilt := (st.sep / 2.0) * (1.0 - st.cosInc);
    Vec3(-st.sep * (1.0 - st.ecc) * (st.mBinary / TotalStarMass(st)) + tilt, 0.0, (st.sep / 2.0) * st.sinInc)
  }

  function CompanionPosition(st: Stars): Vec3
    requires TotalStarMass(st) != 0.0
  {
    var tilt := (st.sep / 2.0) * (1.0 - st.cosInc);
    Vec3(st.sep * (1.0 - st.ecc) * (st.mStar / TotalStarMass(st)) - tilt, 0.0, -(st.sep / 2.0) * st.sinInc)
  }

  /** The stars of a disc of `n` particles: the primary, identifier `n + 1`;
      for a binary also the companion, identifier `n + 2`, which is pushed
      first and never given a type. */
  function CreateStars(n: nat, binary: bool, st: Stars): (r: seq<Sink>)
    requires binary ==> TotalStarMass(st) != 0.0
    ensures |r| == if binary then 2 else 1
    ensures var s1 := r[|r| - 1];
            s1.id == n + 1 && s1.mass == st.mStar && s1.kind == Some(SinkType) && s1.h == st.smoothing
    ensures binary ==> r[0].id == n + 2 && r[0].mass == st.mBinary && r[0].kind == None && r[0].h == st.smoothing
    ensures binary ==> r[0].pos.z == -r[1].pos.z && r[0].pos.y == 0.0 && r[1].pos.y == 0.0
    ensures !binary ==> r[0].pos == Zero
    ensures forall k :: 0 <= k < |r| ==> r[k].vel == Zero
  {
    var s1 := BlankSink.(id := n + 1, h := st.smoothing, mass := st.mStar, kind := Some(SinkType));
    if binary then
      var s2 := BlankSink.(id := n + 2, h := st.smoothing, mass := st.mBinary, pos := CompanionPosition(st));
      [s2, s1.(pos := PrimaryPosition(st))]
    else
      [s1]
  }

  /** A binary in its orbital plane has its centre of mass at the origin. */
  lemma BinaryCentreOfMass(st: Stars)
    requires TotalStarMass(st) != 0.0 && st.cosInc == 1.0 && st.sinInc == 0.0
    ensures var p1 := PrimaryPosition(st);
            var p2 := CompanionPosition(st);
            Add(Scale(p1, st.mStar), Scale(p2, st.mBinary)) == Zero
  {
    var k := st.sep * (1.0 - st.ecc);
    var t := TotalStarMass(st);
    assert st.mStar * (-k * (st.mBinary / t)) + st.mBinary * (k * (st.mStar / t)) == 0.0 by {
      assert st.mStar * (k * (st.mBinary / t)) == st.mBinary * (k * (st.mStar / t));
    }
  }

  /** The stars `CreateStars` makes for an uninclined binary have their
      centre of mass at the origin. */
  lemma StarsCentreOfMass(n: nat, st: Stars)
    requires TotalStarMass(st) != 0.0 && st.cosInc == 1.0 && st.sinInc == 0.0
    ensures var r := CreateStars(n, true, st);
            Add(Scale(r[1].pos, r[1].mass), Scale(r[0].pos, r[0].mass)) == Zero
  {
    BinaryCentreOfMass(st);
  }

  // ---------------------------------------------------------------------
  // Velocities
  // ---------------------------------------------------------------------

  /** The tangential velocity of a disc particle of speed `v`: (-v y, v x, 0)
      over the stored radius, softened by 10^-6. */
  function TangentialVelocity(p: Particle, v: real): Vec3
    requires p.r + 0.000001 != 0.0
  {
    Vec3((-v * p.pos.y) / (p.r + 0.000001), (v * p.pos.x) / (p.r + 0.000001), 0.0)
  }

  /** The disc velocity is horizontal and perpendicular to the horizontal
      position: the disc rotates about the z axis. */
  lemma TangentialIsOrthogonal(p: Particle, v: real)
    requires p.r + 0.000001 != 0.0
    ensures var w := TangentialVelocity(p, v);
            w.z == 0.0 && w.x * p.pos.x + w.y * p.pos.y == 0.0
  {
    var d := p.r + 0.000001;
    assert ((-v * p.pos.y) / d) * p.pos.x == -(((v * p.pos.x) / d) * p.pos.y);
  }

  /** Radii are norms, hence non-negative, so the softened radius is
      never zero. */
  predicate RadiiNonNegative(parts: seq<Particle>)
  {
    forall k :: 0 <= k < |parts| ==> parts[k].r >= 0.0
  }

  /** Every disc particle gets its tangential velocity from its speed
      (derived from the gravity tree, which is not part of this model). */
  function AssignVelocities(parts: seq<Particle>, speeds: seq<real>): (r: seq<Particle>)
    requires |speeds| == |parts| && RadiiNonNegative(parts)
    ensures |r| == |parts|
    ensures forall k :: 0 <= k < |r| ==> r[k] == parts[k].(vel := r[k].vel)
    ensures forall k :: 0 <= k < |r| ==> r[k].vel == TangentialVelocity(parts[k], speeds[k])
    ensures forall k :: 0 <= k < |r| ==>
              r[k].vel.z == 0.0 && r[k].vel.x * r[k].pos.x + r[k].vel.y * r[k].pos.y == 0.0
  {
    var r := seq(|parts|, k requires 0 <= k < |parts| => parts[k].(vel := TangentialVelocity(parts[k], speeds[k])));
    assert forall k :: 0 <= k < |r| ==> r[k].vel == TangentialVelocity(parts[k], speeds[k]);
    forall k | 0 <= k < |r|
      ensures r[k].vel.z == 0.0 && r[k].vel.x * r[k].pos.x + r[k].vel.y * r[k].pos.y == 0.0
    {
      TangentialIsOrthogonal(parts[k], speeds[k]);
    }
    r
  }

  /** The two orbital speeds along y: the first, negative, scaled by the
      companion's share of the mass, the second, positive, by the
      primary's. `orbitalSpeed` is the common square-root factor. */
  function FirstSpeed(st: Stars, orbitalSpeed: real): real
    requires TotalStarMass(st) != 0.0
  {
    -orbitalSpeed * (st.mBinary / TotalStarMass(st))
  }

  function SecondSpeed(st: Stars, orbitalSpeed: real): real
    requires TotalStarMass(st) != 0.0
  {
    orbitalSpeed * (st.mStar / TotalStarMass(st))
  }

  /** The sum of mass times velocity over the sinks. */
  function SinkMomentum(sinks: seq<Sink>): Vec3
  {
    if sinks == [] then Zero else Add(Scale(sinks[0].vel, sinks[0].mass), SinkMomentum(sinks[1..]))
  }

  lemma TwoSinkMomentum(sinks: seq<Sink>)
    requires |sinks| == 2
    ensures SinkMomentum(sinks) == Add(Scale(sinks[0].vel, sinks[0].mass), Scale(sinks[1].vel, sinks[1].mass))
  {
    assert sinks[1..][1..] == [];
    assert SinkMomentum(sinks[1..]) == Add(Scale(sinks[1].vel, sinks[1].mass), Zero);
  }

  /** As written: the first speed goes to the first sink in the list and the
      second to the second. With the companion pushed first, the companion
      gets the speed meant for the primary and the other way round. */
  function BinaryVelocitiesAsWritten(sinks: seq<Sink>, st: Stars, orbitalSpeed: real): (r: seq<Sink>)
    requires |sinks| >= 2 && TotalStarMass(st) != 0.0
    ensures |r| == |sinks|
    ensures forall k :: 0 <= k < |r| ==> r[k] == sinks[k].(vel := r[k].vel)
    ensures forall k :: 2 <= k < |r| ==> r[k] == sinks[k]
    ensures r[0].vel == Vec3(0.0, FirstSpeed(st, orbitalSpeed), 0.0)
    ensures r[1].vel == Vec3(0.0, SecondSpeed(st, orbitalSpeed), 0.0)
  {
    sinks[0 := sinks[0].(vel := Vec3(0.0, FirstSpeed(st, orbitalSpeed), 0.0))]
         [1 := sinks[1].(vel := Vec3(0.0, SecondSpeed(st, orbitalSpeed), 0.0))]
  }

  /** As written, a binary of unequal masses starts with net momentum
      `orbitalSpeed (mStar^2 - mBinary^2) / (mStar + mBinary)` along y. */
  lemma AsWrittenBinaryDrifts(n: nat, st: Stars, orbitalSpeed: real)
    requires TotalStarMass(st) != 0.0
    ensures var sinks := BinaryVelocitiesAsWritten(CreateStars(n, true, st), st, orbitalSpeed);
            SinkMomentum(sinks).y
              == orbitalSpeed * (st.mStar * st.mStar - st.mBinary * st.mBinary) / TotalStarMass(st)
  {
    var sinks := BinaryVelocitiesAsWritten(CreateStars(n, true, st), st, orbitalSpeed);
    TwoSinkMomentum(sinks);
    assert SinkMomentum(sinks).y
        == FirstSpeed(st, orbitalSpeed) * st.mBinary + SecondSpeed(st, orbitalSpeed) * st.mStar;
    CrossedMomentum(orbitalSpeed, st.mStar, st.mBinary, TotalStarMass(st));
  }

  /** The momentum of the swapped speeds, as plain algebra. */
  lemma CrossedMomentum(v: real, ms: real, mb: real, t: real)
    requires t != 0.0
    ensures (-v * (mb / t)) * mb + (v * (ms / t)) * ms == v * (ms * ms - mb * mb) / t
  {
    assert (-v * (mb / t)) * mb == -(v * mb * mb / t);
    assert (v * (ms / t)) * ms == v * ms * ms / t;
  }

  lemma ProductNonZero(a: real, b: real)
    requires a != 0.0 && b != 0.0
    ensures a * b != 0.0
  {
    assert (a * b) / b == a;
  }

  /** As written, the binary drifts whenever its two masses differ (for
      example a solar-mass primary, a half-solar-mass companion and unit
      speed give momentum 0.5 along y). */
  lemma AsWrittenBinaryDriftsWhenUnequal(n: nat, st: Stars, orbitalSpeed: real)
    requires TotalStarMass(st) != 0.0 && st.mStar != st.mBinary && orbitalSpeed != 0.0
    ensures SinkMomentum(BinaryVelocitiesAsWritten(CreateStars(n, true, st), st, orbitalSpeed)).y != 0.0
  {
    AsWrittenBinaryDrifts(n, st, orbitalSpeed);
    var t := TotalStarMass(st);
    var d := st.mStar * st.mStar - st.mBinary * st.mBinary;
    var e := st.mStar - st.mBinary;
    ProductNonZero(e, t);
    assert d == e * t;
    ProductNonZero(orbitalSpeed, d);
    assert orbitalSpeed * d / TotalStarMass(st) != 0.0;
  }

  /** Corrected: the primary (the last of the two) gets the speed scaled by
      the companion's share and the companion the one scaled by the
      primary's, so each star moves in proportion to its distance from the
      centre of mass. */
  function BinaryVelocities(sinks: seq<Sink>, st: Stars, orbitalSpeed: real): (r: seq<Sink>)
    requires |sinks| >= 2 && TotalStarMass(st) != 0.0
    ensures |r| == |sinks|
    ensures forall k :: 0 <= k < |r| ==> r[k] == sinks[k].(vel := r[k].vel)
    ensures forall k :: 2 <= k < |r| ==> r[k] == sinks[k]
    ensures r[0].vel == Vec3(0.0, SecondSpeed(st, orbitalSpeed), 0.0)
    ensures r[1].vel == Vec3(0.0, FirstSpeed(st, orbitalSpeed), 0.0)
  {
    sinks[1 := sinks[1].(vel := Vec3(0.0, FirstSpeed(st, orbitalSpeed), 0.0))]
         [0 := sinks[0].(vel := Vec3(0.0, SecondSpeed(st, orbitalSpeed), 0.0))]
  }

  /** With the speeds on the right stars the binary has no net momentum,
      the primary moves towards -y and the companion towards +y. */
  lemma BinaryMomentumZero(n: nat, st: Stars, orbitalSpeed: real)
    requires TotalStarMass(st) != 0.0
    ensures var sinks := BinaryVelocities(CreateStars(n, true, st), st, orbitalSpeed);
            && SinkMomentum(sinks) == Zero
            && sinks[1].mass == st.mStar && sinks[1].vel.y == FirstSpeed(st, orbitalSpeed)
            && sinks[0].mass == st.mBinary && sinks[0].vel.y == SecondSpeed(st, orbitalSpeed)
  {
    var sinks := BinaryVelocities(CreateStars(n, true, st), st, orbitalSpeed);
    var t := TotalStarMass(st);
    TwoSinkMomentum(sinks);
    assert (orbitalSpeed * (st.mStar / t)) * st.mBinary == (orbitalSpeed * (st.mBinary / t)) * st.mStar;
  }

  lemma BinarySpeedSigns(st: Stars, orbitalSpeed: real)
    requires st.mStar >= 0.0 && st.mBinary >= 0.0 && TotalStarMass(st) > 0.0 && orbitalSpeed >= 0.0
    ensures FirstSpeed(st, orbitalSpeed) <= 0.0 <= SecondSpeed(st, orbitalSpeed)
  {
    var t := TotalStarMass(st);
    assert st.mBinary / t >= 0.0 && st.mStar / t >= 0.0;
  }

  /** The stars' velocities after the disc's, as written: a binary's first
      orbital speed goes to the first sink in the list (the companion) and
      the second to the second (the primary); a single star is set at rest.
      Nothing but the velocities changes. */
  function StarVelocities(sinks: seq<Sink>, binary: bool, st: Stars, orbitalSpeed: real): (r: seq<Sink>)
    requires |sinks| >= 1
    requires binary ==> |sinks| >= 2 && TotalStarMass(st) != 0.0
    ensures |r| == |sinks|
    ensures forall k :: 0 <= k < |r| ==> r[k] == sinks[k].(vel := r[k].vel)
    ensures forall k :: (if binary then 2 else 1) <= k < |r| ==> r[k] == sinks[k]
    ensures binary ==> r[0].vel == Vec3(0.0, FirstSpeed(st, orbitalSpeed), 0.0)
                       && r[1].vel == Vec3(0.0, SecondSpeed(st, orbitalSpeed), 0.0)
    ensures !binary ==> r[0].vel == Zero
  {
    if binary then BinaryVelocitiesAsWritten(sinks, st, orbitalSpeed)
    else sinks[0 := sinks[0].(vel := Zero)]
  }

  /** Corrected: as `StarVelocities`, with each of the binary's speeds on
      the star it is scaled for. */
  function StarVelocitiesBalanced(sinks: seq<Sink>, binary: bool, st: Stars, orbitalSpeed: real): (r: seq<Sink>)
    requires |sinks| >= 1
    requires binary ==> |sinks| >= 2 && TotalStarMass(st) != 0.0
    ensures |r| == |sinks|
    ensures forall k :: 0 <= k < |r| ==> r[k] == sinks[k].(vel := r[k].vel)
    ensures forall k :: (if binary then 2 else 1) <= k < |r| ==> r[k] == sinks[k]
    ensures binary ==> r[0].vel == Vec3(0.0, SecondSpeed(st, orbitalSpeed), 0.0)
                       && r[1].vel == Vec3(0.0, FirstSpeed(st, orbitalSpeed), 0.0)
    ensures !binary ==> r[0].vel == Zero
  {
    if binary then BinaryVelocities(sinks, st, orbitalSpeed)
    else sinks[0 := sinks[0].(vel := Zero)]
  }

  // ---------------------------------------------------------------------
  // Points handed to the gravity tree
  // ---------------------------------------------------------------------

  /** A slot of the point array: position and mass. */
  datatype PointMass = PointMass(pos: Vec3, mass: real)

  /** A slot no loop writes. */
  const UnsetPoint: PointMass := PointMass(Zero, 0.0)

  function ParticlePoint(p: Particle): PointMass { PointMass(p.pos, p.mass) }

  function SinkPoint(s: Sink): PointMass { PointMass(s.pos, s.mass) }

  /** The array of `|parts| + |sinks|` slots and the slot of every pointer
      handed to the tree, in order. The tree keeps pointers, so it sees each
      slot's final contents. */
  datatype TreeLoad = TreeLoad(slots: seq<PointMass>, handed: seq<nat>)

  predicate WellIndexed(load: TreeLoad)
  {
    forall k :: 0 <= k < |load.handed| ==> load.handed[k] < |load.slots|
  }

  /** What the tree holds once both loops are done. */
  function Held(load: TreeLoad): (r: seq<PointMass>)
    requires WellIndexed(load)
    ensures |r| == |load.handed|
  {
    seq(|load.handed|, k requires 0 <= k < |load.handed| => load.slots[load.handed[k]])
  }

  function PointMassTotal(ps: seq<PointMass>): real
  {
    if ps == [] then 0.0 else ps[0].mass + PointMassTotal(ps[1..])
  }

  lemma {:induction false} PointMassTotalAppend(a: seq<PointMass>, b: seq<PointMass>)
    ensures PointMassTotal(a + b) == PointMassTotal(a) + PointMassTotal(b)
  {
    if a == [] {
      assert a + b == b;
    } else {
      assert (a + b)[1..] == a[1..] + b;
      PointMassTotalAppend(a[1..], b);
    }
  }

  /** As written, the sink loop writes slot `i` rather than `|parts| + i`,
      so the first sinks overwrite the first particles' slots, the slots
      after the particles stay unset, and the overwritten slots are handed
      to the tree a second time. */
  function LoadAsWritten(parts: seq<Particle>, sinks: seq<Sink>): (r: TreeLoad)
    ensures |r.slots| == |parts| + |sinks| && WellIndexed(r)
  {
    var n := |parts|;
    var s := |sinks|;
    TreeLoad(seq(n + s, k requires 0 <= k < n + s =>
                   if k < s then SinkPoint(sinks[k]) else if k < n then ParticlePoint(parts[k]) else UnsetPoint),
             seq(n, k => k) + seq(s, k => k))
  }

  /** The two loops as they run, one slot write and one hand-over per step. */
  method LoadTreeAsWritten(parts: seq<Particle>, sinks: seq<Sink>) returns (load: TreeLoad)
    ensures load == LoadAsWritten(parts, sinks)
  {
    var slots := seq(|parts| + |sinks|, _ => UnsetPoint);
    var handed: seq<nat> := [];
    var i := 0;
    while i < |parts|
      invariant 0 <= i <= |parts| && |slots| == |parts| + |sinks|
      invariant handed == seq(i, k => k)
      invariant forall k :: 0 <= k < |slots| ==> slots[k] == if k < i then ParticlePoint(parts[k]) else UnsetPoint
    {
      slots := slots[i := ParticlePoint(parts[i])];
      handed := handed + [i];
      i := i + 1;
    }
    var j := 0;
    while j < |sinks|
      invariant 0 <= j <= |sinks| && |slots| == |parts| + |sinks|
      invariant handed == seq(|parts|, k => k) + seq(j, k => k)
      invariant forall k :: 0 <= k < |slots| ==>
                  slots[k] == if k < j then SinkPoint(sinks[k])
                              else if k < |parts| then ParticlePoint(parts[k]) else UnsetPoint
    {
      slots := slots[j := SinkPoint(sinks[j])];
      handed := handed + [j];
      j := j + 1;
    }
    load := TreeLoad(slots, handed);
  }

  /** As written, with at least one particle and one sink, slot 0 is handed
      over twice and holds the first sink, so the tree sees that sink twice
      and never sees the first particle's slot as the particle. */
  lemma AsWrittenSeesFirstSinkTwice(parts: seq<Particle>, sinks: seq<Sink>)
    requires |parts| >= 1 && |sinks| >= 1
    ensures var held := Held(LoadAsWritten(parts, sinks));
            held[0] == SinkPoint(sinks[0]) && held[|parts|] == SinkPoint(sinks[0])
  {
  }

  /** As written, when there are no more sinks than particles, the slots
      reserved for the sinks are never written and never handed over: every
      index handed to the tree is a particle's slot. */
  lemma AsWrittenSkipsSinkSlots(parts: seq<Particle>, sinks: seq<Sink>)
    requires |sinks| <= |parts|
    ensures var load := LoadAsWritten(parts, sinks);
            && (forall k :: |parts| <= k < |load.slots| ==> load.slots[k] == UnsetPoint)
            && (forall j :: 0 <= j < |load.handed| ==> load.handed[j] < |parts|)
  {
  }

  /** A concrete case: one particle of mass 1 and one sink of mass 2; the tree
      holds mass 4 instead of 3. */
  lemma AsWrittenMassExample()
    ensures var parts := [Blank.(mass := 1.0)];
            var sinks := [BlankSink.(mass := 2.0)];
            PointMassTotal(Held(LoadAsWritten(parts, sinks))) == 4.0
  {
    var parts := [Blank.(mass := 1.0)];
    var sinks := [BlankSink.(mass := 2.0)];
    var held := Held(LoadAsWritten(parts, sinks));
    assert held == [SinkPoint(sinks[0]), SinkPoint(sinks[0])];
    assert held[1..][1..] == [];
    assert PointMassTotal(held[1..]) == 2.0;
  }

  /** Corrected: sink `i` goes to slot `|parts| + i`. */
  function Load(parts: seq<Particle>, sinks: seq<Sink>): (r: TreeLoad)
    ensures |r.slots| == |parts| + |sinks| && WellIndexed(r)
  {
    var n := |parts|;
    var s := |sinks|;
    TreeLoad(seq(n + s, k requires 0 <= k < n + s => if k < n then ParticlePoint(parts[k]) else SinkPoint(sinks[k - n])),
             seq(n + s, k => k))
  }

  method LoadTree(parts: seq<Particle>, sinks: seq<Sink>) returns (load: TreeLoad)
    ensures load == Load(parts, sinks)
  {
    var slots := seq(|parts| + |sinks|, _ => UnsetPoint);
    var handed: seq<nat> := [];
    var i := 0;
    while i < |parts|
      invariant 0 <= i <= |parts| && |slots| == |parts| + |sinks|
      invariant handed == seq(i, k => k)
      invariant forall k :: 0 <= k < |slots| ==> slots[k] == if k < i then ParticlePoint(parts[k]) else UnsetPoint
    {
      slots := slots[i := ParticlePoint(parts[i])];
      handed := handed + [i];
      i := i + 1;
    }
    var j := 0;
    while j < |sinks|
      invariant 0 <= j <= |sinks| && |slots| == |parts| + |sinks|
      invariant handed == seq(|parts| + j, k => k)
      invariant forall k :: 0 <= k < |slots| ==>
                  slots[k] == if k < |parts| then ParticlePoint(parts[k])
                              else if k < |parts| + j then SinkPoint(sinks[k - |parts|]) else UnsetPoint
    {
      slots := slots[|parts| + j := SinkPoint(sinks[j])];
      handed := handed + [|parts| + j];
      j := j + 1;
    }
    load := TreeLoad(slots, handed);
  }

  lemma {:induction false} ParticlePointTotal(parts: seq<Particle>)
    ensures PointMassTotal(Map(parts, ParticlePoint)) == TotalMass(parts)
  {
    if parts != [] {
      assert Map(parts, ParticlePoint)[1..] == Map(parts[1..], ParticlePoint);
      ParticlePointTotal(parts[1..]);
    }
  }

  function SinkMass(sinks: seq<Sink>): real
  {
    if sinks == [] then 0.0 else sinks[0].mass + SinkMass(sinks[1..])
  }

  lemma {:induction false} SinkPointTotal(sinks: seq<Sink>)
    ensures PointMassTotal(Map(sinks, SinkPoint)) == SinkMass(sinks)
  {
    if sinks != [] {
      assert Map(sinks, SinkPoint)[1..] == Map(sinks[1..], SinkPoint);
      SinkPointTotal(sinks[1..]);
    }
  }

  /** Corrected, the tree holds every particle and every sink exactly once,
      in order, and so all of their mass. */
  lemma LoadHoldsEverything(parts: seq<Particle>, sinks: seq<Sink>)
    ensures Held(Load(parts, sinks)) == Map(parts, ParticlePoint) + Map(sinks, SinkPoint)
    ensures PointMassTotal(Held(Load(parts, sinks))) == TotalMass(parts) + SinkMass(sinks)
  {
    assert Held(Load(parts, sinks)) == Map(parts, ParticlePoint) + Map(sinks, SinkPoint);
    PointMassTotalAppend(Map(parts, ParticlePoint), Map(sinks, SinkPoint));
    ParticlePointTotal(parts);
    SinkPointTotal(sinks);
  }

  // ---------------------------------------------------------------------
  // The planet
  // ---------------------------------------------------------------------

  /** Strictly inside the planet's orbital radius. */
  function Inside(radius: real, norm: Vec3 -> real): Particle -> bool
  {
    (p: Particle) => norm(p.pos) < radius
  }

  /** The gas mass strictly inside the planet's orbital radius. The loop
      adds from the back, where the code adds from the front; over `real`
      both orders give the same sum. */
  method InteriorMass(parts: seq<Particle>, radius: real, norm: Vec3 -> real) returns (m: real)
    ensures m == TotalMass(Filter(parts, Inside(radius, norm), true))
  {
    m := 0.0;
    var i := |parts|;
    while i > 0
      invariant 0 <= i <= |parts|
      invariant m == TotalMass(Filter(parts[i..], Inside(radius, norm), true))
    {
      i := i - 1;
      assert parts[i..][1..] == parts[i + 1..];
      if norm(parts[i].pos) < radius {
        m := m + parts[i].mass;
      }
    }
    assert parts[0..] == parts;
  }

  /** A wider orbit encloses at least as much non-negative mass. */
  lemma {:induction false} InteriorMassMonotone(parts: seq<Particle>, r1: real, r2: real, norm: Vec3 -> real)
    requires r1 <= r2
    requires forall k :: 0 <= k < |parts| ==> parts[k].mass >= 0.0
    ensures TotalMass(Filter(parts, Inside(r1, norm), true)) <= TotalMass(Filter(parts, Inside(r2, norm), true))
  {
    if parts != [] {
      InteriorMassMonotone(parts[1..], r1, r2, norm);
      assert Filter(parts, Inside(r1, norm), true) == (if norm(parts[0].pos) < r1 then [parts[0]] else [])
                                                      + Filter(parts[1..], Inside(r1, norm), true);
      assert Filter(parts, Inside(r2, norm), true) == (if norm(parts[0].pos) < r2 then [parts[0]] else [])
                                                      + Filter(parts[1..], Inside(r2, norm), true);
      TotalMassAppend(if norm(parts[0].pos) < r1 then [parts[0]] else [], Filter(parts[1..], Inside(r1, norm), true));
      TotalMassAppend(if norm(parts[0].pos) < r2 then [parts[0]] else [], Filter(parts[1..], Inside(r2, norm), true));
    }
  }

  /** The planet's parameters: orbital radius, eccentricity, mass (already
      in solar masses) and smoothing length. */
  datatype Planet = Planet(radius: real, ecc: real, mass: real, smoothing: real)

  /** The planet joins the sinks last, identifier one past the particles
      and sinks, at pericentre on the x axis, moving along y at the circular
      speed for the star plus the enclosed gas (`circular` hides the square
      root and unit factors). */
  function CreatePlanet(parts: seq<Particle>, sinks: seq<Sink>, pl: Planet, norm: Vec3 -> real,
                        circular: real -> real): (r: seq<Sink>)
    ensures |r| == |sinks| + 1 && r[..|sinks|] == sinks
    ensures var s := r[|sinks|];
            && s.id == |parts| + |sinks| + 1
            && s.kind == Some(SinkType) && s.mass == pl.mass && s.h == pl.smoothing
            && s.pos == Vec3(pl.radius * (1.0 - pl.ecc), 0.0, 0.0)
            && s.vel.x == 0.0 && s.vel.z == 0.0
            && s.vel.y == circular(TotalMass(Filter(parts, Inside(pl.radius, norm), true)))
  {
    var interior := TotalMass(Filter(parts, Inside(pl.radius, norm), true));
    var s := BlankSink.(id := |parts| + |sinks| + 1, h := pl.smoothing, mass := pl.mass, kind := Some(SinkType),
                        pos := Vec3(pl.radius * (1.0 - pl.ecc), 0.0, 0.0), vel := Vec3(0.0, circular(interior), 0.0));
    sinks + [s]
  }

  // ---------------------------------------------------------------------
  // The whole disc set-up
  // ---------------------------------------------------------------------

  /** Disc, stars, velocities, then optionally the planet, as the disc and
      binary set-ups run them; `balanced` picks the corrected binary
      velocities instead of the ones as written. */
  function CreateDiscSystemWith(mDisc: real, samples: seq<DiscSample>, binary: bool, st: Stars,
                                speeds: seq<real>, orbitalSpeed: real, planet: Option<Planet>,
                                norm: Vec3 -> real, circular: real -> real, balanced: bool): (r: (seq<Particle>, seq<Sink>))
    requires binary ==> TotalStarMass(st) != 0.0
    requires |speeds| == |samples|
    requires forall v :: norm(v) >= 0.0
    ensures |r.0| == |samples|
    ensures forall i :: 0 <= i < |r.0| ==>
              && r.0[i] == CreateDisc(mDisc, samples, norm)[i].(vel := r.0[i].vel)
              && r.0[i].r >= 0.0
              && r.0[i].vel == TangentialVelocity(r.0[i], speeds[i])
    ensures |r.1| == (if binary then 2 else 1) + (if planet.Some? then 1 else 0)
    ensures forall i :: 0 <= i < |r.1| ==> r.1[i].id > |r.0|
    ensures forall i, j :: 0 <= i < j < |r.1| ==> r.1[i].id != r.1[j].id
  {
    var disc := CreateDisc(mDisc, samples, norm);
    MovingDisc(mDisc, samples, speeds, norm);
    var stars := CreateStars(|disc|, binary, st);
    var moving := AssignVelocities(disc, speeds);
    var starsMoving := if balanced then StarVelocitiesBalanced(stars, binary, st, orbitalSpeed)
                       else StarVelocities(stars, binary, st, orbitalSpeed);
    assert forall k :: 0 <= k < |starsMoving| ==> starsMoving[k].id == stars[k].id;
    PlanetKeepsIdsDistinct(moving, starsMoving, planet, norm, circular);
    match planet
    case None => (moving, starsMoving)
    case Some(pl) => (moving, CreatePlanet(moving, starsMoving, pl, norm, circular))
  }

  /** The disc particles after the velocity pass: the created particles
      with their tangential velocities. */
  lemma MovingDisc(mDisc: real, samples: seq<DiscSample>, speeds: seq<real>, norm: Vec3 -> real)
    requires |speeds| == |samples|
    requires forall v :: norm(v) >= 0.0
    ensures RadiiNonNegative(CreateDisc(mDisc, samples, norm))
    ensures var disc := CreateDisc(mDisc, samples, norm);
            var m := AssignVelocities(disc, speeds);
            forall i :: 0 <= i < |m| ==>
              && m[i] == disc[i].(vel := m[i].vel)
              && m[i].r >= 0.0
              && m[i].vel == TangentialVelocity(m[i], speeds[i])
  {
    var disc := CreateDisc(mDisc, samples, norm);
    assert RadiiNonNegative(disc);
    var m := AssignVelocities(disc, speeds);
    forall i | 0 <= i < |m|
      ensures m[i].vel == TangentialVelocity(m[i], speeds[i])
    {
      assert m[i].pos == disc[i].pos && m[i].r == disc[i].r;
    }
  }

  /** Sinks numbered just above the particles keep distinct identifiers
      above the particles' when the planet joins them. */
  lemma PlanetKeepsIdsDistinct(parts: seq<Particle>, sinks: seq<Sink>, planet: Option<Planet>,
                               norm: Vec3 -> real, circular: real -> real)
    requires forall i :: 0 <= i < |sinks| ==> |parts| < sinks[i].id <= |parts| + |sinks|
    requires forall i, j :: 0 <= i < j < |sinks| ==> sinks[i].id != sinks[j].id
    ensures var r := match planet
                     case None => sinks
                     case Some(pl) => CreatePlanet(parts, sinks, pl, norm, circular);
            && (forall i :: 0 <= i < |r| ==> r[i].id > |parts|)
            && (forall i, j :: 0 <= i < j < |r| ==> r[i].id != r[j].id)
  {
    if planet.Some? {
      var r := CreatePlanet(parts, sinks, planet.value, norm, circular);
      forall i | 0 <= i < |sinks|
        ensures r[i] == sinks[i]
      {
        assert r[..|sinks|][i] == r[i];
      }
    }
  }

  /** The set-up as written: a binary of unequal masses and non-zero speed
      starts with net momentum. */
  function CreateDiscSystem(mDisc: real, samples: seq<DiscSample>, binary: bool, st: Stars,
                            speeds: seq<real>, orbitalSpeed: real, planet: Option<Planet>,
                            norm: Vec3 -> real, circular: real -> real): (r: (seq<Particle>, seq<Sink>))
    requires binary ==> TotalStarMass(st) != 0.0
    requires |speeds| == |samples|
    requires forall v :: norm(v) >= 0.0
    ensures binary ==> |r.1| >= 2
    ensures binary && st.mStar != st.mBinary && orbitalSpeed != 0.0 ==> SinkMomentum(r.1[..2]).y != 0.0
  {
    var r := CreateDiscSystemWith(mDisc, samples, binary, st, speeds, orbitalSpeed, planet, norm, circular, false);
    if binary && st.mStar != st.mBinary && orbitalSpeed != 0.0 then
      DiscSystemMomentum(mDisc, samples, st, speeds, orbitalSpeed, planet, norm, circular, false);
      AsWrittenBinaryDriftsWhenUnequal(|samples|, st, orbitalSpeed);
      r
    else r
  }

  /** The set-up with the corrected binary velocities: the binary starts
      with no net momentum. */
  function CreateDiscSystemBalanced(mDisc: real, samples: seq<DiscSample>, binary: bool, st: Stars,
                                    speeds: seq<real>, orbitalSpeed: real, planet: Option<Planet>,
                                    norm: Vec3 -> real, circular: real -> real): (r: (seq<Particle>, seq<Sink>))
    requires binary ==> TotalStarMass(st) != 0.0
    requires |speeds| == |samples|
    requires forall v :: norm(v) >= 0.0
    ensures binary ==> |r.1| >= 2 && SinkMomentum(r.1[..2]) == Zero
  {
    var r := CreateDiscSystemWith(mDisc, samples, binary, st, speeds, orbitalSpeed, planet, norm, circular, true);
    if binary then
      DiscSystemMomentum(mDisc, samples, st, speeds, orbitalSpeed, planet, norm, circular, true);
      BinaryMomentumZero(|samples|, st, orbitalSpeed);
      r
    else r
  }

  /** In a binary set-up the two stars are the ones `CreateStars` makes,
      with the velocities the chosen assignment gives them. */
  lemma DiscSystemMomentum(mDisc: real, samples: seq<DiscSample>, st: Stars,
                           speeds: seq<real>, orbitalSpeed: real, planet: Option<Planet>,
                           norm: Vec3 -> real, circular: real -> real, balanced: bool)
    requires TotalStarMass(st) != 0.0
    requires |speeds| == |samples|
    requires forall v :: norm(v) >= 0.0
    ensures var r := CreateDiscSystemWith(mDisc, samples, true, st, speeds, orbitalSpeed, planet, norm, circular, balanced);
            var stars := CreateStars(|samples|, true, st);
            r.1[..2] == (if balanced then BinaryVelocities(stars, st, orbitalSpeed)
                         else BinaryVelocitiesAsWritten(stars, st, orbitalSpeed))
  {
    var disc := CreateDisc(mDisc, samples, norm);
    var stars := CreateStars(|disc|, true, st);
    var moving := AssignVelocities(disc, speeds);
    var starsMoving := if balanced then StarVelocitiesBalanced(stars, true, st, orbitalSpeed)
                       else StarVelocities(stars, true, st, orbitalSpeed);
    assert |starsMoving| == 2;
    match planet {
      case None =>
        assert starsMoving[..2] == starsMoving;
      case Some(pl) =>
        assert CreatePlanet(moving, starsMoving, pl, norm, circular)[..2] == starsMoving;
    }
  }
}
