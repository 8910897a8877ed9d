/** Re-centring a disc snapshot and measuring the radius that encloses given
    fractions of its gas mass.

    Centring moves every particle and every sink by one offset: the position
    of a chosen sink, a given position, or the mass-weighted centre of the
    densest particles. The densest mode also removes their mass-weighted
    mean velocity from the particles. The stored radius of everything moved
    becomes the Euclidean norm of its new position; the norm involves a
    square root and is a parameter. */
module DiscAnalyser {
  import opened Wrappers
  import opened Geometry
  import opened Sequences
  import opened Particles

  /** What centring reads and writes of a snapshot. */
  datatype Contents = Contents(parts: seq<Particle>, sinks: seq<Sink>, name: NameData)

  /** Reads the source makes out of range: `.at` past the particle count
      (it throws), a sink index with no such sink, and the first sink of a
      snapshot without sinks (both read outside the vector). */
  datatype CenterError = DensestOutOfRange | SinkOutOfRange | NoSinks

  const CenteredPrefix: string := ".centered."

  // ---------------------------------------------------------------------
  // Decimal sink indices in the name suffix
  // ---------------------------------------------------------------------

  function Digit(d: nat): char
    requires d < 10
  {
    "0123456789"[d]
  }

  predicate IsDigits(s: string)
  {
    forall k :: 0 <= k < |s| ==> '0' <= s[k] <= '9'
  }

  /** The decimal spelling of a non-negative index, as `std::to_string`
      writes it. */
  function DecimalString(n: nat): (s: string)
    ensures |s| >= 1 && IsDigits(s)
    ensures n < 10 <==> |s| == 1
  {
    if n < 10 then [Digit(n)] else DecimalString(n / 10) + [Digit(n % 10)]
  }

  function DecimalValue(s: string): nat
    requires IsDigits(s)
  {
    if s == [] then 0 else 10 * DecimalValue(s[..|s| - 1]) + (s[|s| - 1] - '0') as nat
  }

  /** The spelling reads back as the same number, so distinct sinks give
      distinct suffixes. */
  lemma {:induction false} DecimalRoundTrip(n: nat)
    ensures DecimalValue(DecimalString(n)) == n
  {
    var s := DecimalString(n);
    if n >= 10 {
      DecimalRoundTrip(n / 10);
      assert s[..|s| - 1] == DecimalString(n / 10);
      assert s[|s| - 1] == Digit(n % 10);
    }
  }

  // ---------------------------------------------------------------------
  // Moving a snapshot
  // ---------------------------------------------------------------------

  function MoveParticle(p: Particle, dX: Vec3, dV: Vec3, norm: Vec3 -> real): Particle
  {
    var x := Sub(p.pos, dX);
    p.(pos := x, r := norm(x), vel := Sub(p.vel, dV))
  }

  function Mover(dX: Vec3, dV: Vec3, norm: Vec3 -> real): Particle -> Particle
  {
    p => MoveParticle(p, dX, dV, norm)
  }

  /** Sinks move with the particles but keep their velocity. */
  function MoveSink(s: Sink, dX: Vec3, norm: Vec3 -> real): Sink
  {
    var x := Sub(s.pos, dX);
    s.(pos := x, r := norm(x))
  }

  function SinkMover(dX: Vec3, norm: Vec3 -> real): Sink -> Sink
  {
    s => MoveSink(s, dX, norm)
  }

  function Moved(c: Contents, dX: Vec3, dV: Vec3, suffix: string, norm: Vec3 -> real): Contents
  {
    Contents(Map(c.parts, Mover(dX, dV, norm)), Map(c.sinks, SinkMover(dX, norm)),
             c.name.(append := CenteredPrefix + suffix))
  }

  // ---------------------------------------------------------------------
  // The densest particles
  // ---------------------------------------------------------------------

  function DensityDescending(p: Particle): real { -p.dens }

  /** At least one particle is averaged, whatever the configured count. */
  function DensestCount(num: int): (n: nat)
    ensures n >= 1 && n >= num
    ensures num >= 1 ==> n == num
  {
    if num > 1 then num else 1
  }

  /** The `n` particles of highest density (equal densities in their input
      order). */
  function Densest(parts: seq<Particle>, n: nat): (r: seq<Particle>)
    requires n <= |parts|
    ensures |r| == n
    ensures forall k :: 0 <= k < n ==> r[k] in multiset(parts)
    ensures multiset(r) <= multiset(parts)
    ensures forall k, x :: 0 <= k < n && x in multiset(parts) - multiset(r) ==> r[k].dens >= x.dens
  {
    var sorted := SortBy(parts, DensityDescending);
    assert forall k :: 0 <= k < n ==> sorted[k] in multiset(sorted);
    PrefixDominates(sorted, n);
    sorted[..n]
  }

  /** In a list sorted by descending density, the first `n` are a
      sub-multiset and none is less dense than any of the rest. */
  lemma PrefixDominates(sorted: seq<Particle>, n: nat)
    requires n <= |sorted| && SortedBy(sorted, DensityDescending)
    ensures multiset(sorted[..n]) <= multiset(sorted)
    ensures forall k, x :: 0 <= k < n && x in multiset(sorted) - multiset(sorted[..n]) ==> sorted[k].dens >= x.dens
  {
    assert sorted == sorted[..n] + sorted[n..];
    assert multiset(sorted) - multiset(sorted[..n]) == multiset(sorted[n..]);
    forall k, x | 0 <= k < n && x in multiset(sorted) - multiset(sorted[..n])
      ensures sorted[k].dens >= x.dens
    {
      assert x in sorted[n..];
      var j :| n <= j < |sorted| && sorted[j] == x;
      assert DensityDescending(sorted[k]) <= DensityDescending(sorted[j]);
    }
  }

  /** The sum of mass times position. */
  function MassMoment(ps: seq<Particle>): Vec3
  {
    if ps == [] then Zero else Add(Scale(ps[0].pos, ps[0].mass), MassMoment(ps[1..]))
  }

  /** The sum of mass times velocity. */
  function Momentum(ps: seq<Particle>): Vec3
  {
    if ps == [] then Zero else Add(Scale(ps[0].vel, ps[0].mass), Momentum(ps[1..]))
  }

  function DivBy(a: Vec3, k: real): Vec3
    requires k != 0.0
  {
    Vec3(a.x / k, a.y / k, a.z / k)
  }

  lemma MoveOneStep(a: Vec3, d: Vec3, m: real, rest: Vec3, total: real)
    ensures Add(Scale(Sub(a, d), m), Sub(rest, Scale(d, total)))
            == Sub(Add(Scale(a, m), rest), Scale(d, m + total))
  {
    assert (a.x - d.x) * m == a.x * m - d.x * m && d.x * (m + total) == d.x * m + d.x * total;
    assert (a.y - d.y) * m == a.y * m - d.y * m && d.y * (m + total) == d.y * m + d.y * total;
    assert (a.z - d.z) * m == a.z * m - d.z * m && d.z * (m + total) == d.z * m + d.z * total;
  }

  /** Moving every particle by `dX` moves the mass moment by `dX` times the
      total mass; likewise for velocities and momentum. */
  lemma {:induction false} MomentOfMoved(ps: seq<Particle>, dX: Vec3, dV: Vec3, norm: Vec3 -> real)
    ensures MassMoment(Map(ps, Mover(dX, dV, norm))) == Sub(MassMoment(ps), Scale(dX, TotalMass(ps)))
    ensures Momentum(Map(ps, Mover(dX, dV, norm))) == Sub(Momentum(ps), Scale(dV, TotalMass(ps)))
  {
    var f := Mover(dX, dV, norm);
    if ps != [] {
      assert Map(ps, f)[0] == MoveParticle(ps[0], dX, dV, norm);
      assert Map(ps, f)[1..] == Map(ps[1..], f);
      MomentOfMoved(ps[1..], dX, dV, norm);
      MoveOneStep(ps[0].pos, dX, ps[0].mass, MassMoment(ps[1..]), TotalMass(ps[1..]));
      MoveOneStep(ps[0].vel, dV, ps[0].mass, Momentum(ps[1..]), TotalMass(ps[1..]));
    }
  }

  // ---------------------------------------------------------------------
  // Center
  // ---------------------------------------------------------------------

  predicate SinkExists(c: Contents, sinkIndex: int)
  {
    0 <= sinkIndex < |c.sinks|
  }

  /** Nothing to centre on: no position, no such sink, not densest mode. */
  predicate NothingToCenterOn(c: Contents, sinkIndex: int, posCenter: Vec3, densest: bool)
  {
    posCenter == Zero && !SinkExists(c, sinkIndex) && !densest
  }

  /** The densest mode divides by the mass of the particles it averages. */
  predicate DensestMassPositive(c: Contents, densestNum: int)
  {
    var n := DensestCount(densestNum);
    n <= |c.parts| ==> TotalMass(Densest(c.parts, n)) != 0.0
  }

  /** The offset of the sink and position modes: the sink's or the given
      position, with a zero height replaced by the sink's height. */
  function FixedOffset(c: Contents, sinkIndex: int, posCenter: Vec3): Result<Vec3, CenterError>
    requires posCenter == Zero ==> SinkExists(c, sinkIndex)
  {
    var dX := if posCenter == Zero then c.sinks[sinkIndex].pos else posCenter;
    if dX.z != 0.0 then Ok(dX)
    else if !SinkExists(c, sinkIndex) then Err(SinkOutOfRange)
    else Ok(dX.(z := c.sinks[sinkIndex].pos.z))
  }

  /** Moves the snapshot so that the chosen centre lands on the origin and
      records the centring in the name suffix. */
  function Center(c: Contents, sinkIndex: int, posCenter: Vec3, densest: bool, densestNum: int,
                  centerLabel: string, norm: Vec3 -> real): (r: Result<Contents, CenterError>)
    requires densest ==> DensestMassPositive(c, densestNum)
    ensures NothingToCenterOn(c, sinkIndex, posCenter, densest) ==> r == Ok(c)
    ensures !NothingToCenterOn(c, sinkIndex, posCenter, densest) && densest && DensestCount(densestNum) > |c.parts|
            ==> r == Err(DensestOutOfRange)
    ensures !NothingToCenterOn(c, sinkIndex, posCenter, densest) && !densest && posCenter != Zero
            && posCenter.z == 0.0 && !SinkExists(c, sinkIndex)
            ==> r == Err(SinkOutOfRange)
    ensures r.Ok? <==>
              NothingToCenterOn(c, sinkIndex, posCenter, densest)
              || (|c.sinks| > 0
                  && (densest ==> DensestCount(densestNum) <= |c.parts|)
                  && (!densest && posCenter != Zero && posCenter.z == 0.0 ==> SinkExists(c, sinkIndex)))
    ensures r.Err? ==> r.error == NoSinks ==> |c.sinks| == 0
  {
    if NothingToCenterOn(c, sinkIndex, posCenter, densest) then Ok(c)
    else if densest then
      var n := DensestCount(densestNum);
      if n > |c.parts| then Err(DensestOutOfRange)
      else
        var top := Densest(c.parts, n);
        var m := TotalMass(top);
        var dX := DivBy(MassMoment(top), m);
        var dV := DivBy(Momentum(top), m);
        if |c.sinks| == 0 then Err(NoSinks)
        else Ok(Moved(c, dX, dV, "densest", norm))
    else
      var suffix := if posCenter == Zero then DecimalString(sinkIndex) else centerLabel;
      var offset := FixedOffset(c, sinkIndex, posCenter);
      if offset.Err? then Err(offset.error)
      else if |c.sinks| == 0 then Err(NoSinks)
      else Ok(Moved(c, offset.value, Zero, suffix, norm))
  }

  /** Whatever the mode, a centred snapshot is the input moved by a single
      offset: it holds the same particles and sinks in the same order, every
      difference of two positions is unchanged, every stored radius is the
      norm of the new position, and only positions, radii and particle
      velocities change. */
  lemma CenterIsTranslation(c: Contents, sinkIndex: int, posCenter: Vec3, densest: bool, densestNum: int,
                            centerLabel: string, norm: Vec3 -> real)
    requires densest ==> DensestMassPositive(c, densestNum)
    requires !NothingToCenterOn(c, sinkIndex, posCenter, densest)
    requires Center(c, sinkIndex, posCenter, densest, densestNum, centerLabel, norm).Ok?
    ensures var r := Center(c, sinkIndex, posCenter, densest, densestNum, centerLabel, norm).value;
            exists dX: Vec3, dV: Vec3, suffix: string :: r == Moved(c, dX, dV, suffix, norm)
  {
    if densest {
      var dX, dV := DensestMove(c, sinkIndex, posCenter, densestNum, centerLabel, norm);
    } else {
      var dX, suffix := FixedMove(c, sinkIndex, posCenter, densestNum, centerLabel, norm);
    }
  }

  /** The densest mode's result is a move. */
  lemma DensestMove(c: Contents, sinkIndex: int, posCenter: Vec3, densestNum: int, centerLabel: string, norm: Vec3 -> real)
    returns (dX: Vec3, dV: Vec3)
    requires DensestMassPositive(c, densestNum)
    requires Center(c, sinkIndex, posCenter, true, densestNum, centerLabel, norm).Ok?
    ensures Center(c, sinkIndex, posCenter, true, densestNum, centerLabel, norm).value == Moved(c, dX, dV, "densest", norm)
  {
    var top := Densest(c.parts, DensestCount(densestNum));
    var m := TotalMass(top);
    dX, dV := DivBy(MassMoment(top), m), DivBy(Momentum(top), m);
  }

  /** The sink and position modes' result is a move with no velocity shift. */
  lemma FixedMove(c: Contents, sinkIndex: int, posCenter: Vec3, densestNum: int, centerLabel: string, norm: Vec3 -> real)
    returns (dX: Vec3, suffix: string)
    requires !NothingToCenterOn(c, sinkIndex, posCenter, false)
    requires Center(c, sinkIndex, posCenter, false, densestNum, centerLabel, norm).Ok?
    ensures Center(c, sinkIndex, posCenter, false, densestNum, centerLabel, norm).value == Moved(c, dX, Zero, suffix, norm)
  {
    suffix := if posCenter == Zero then DecimalString(sinkIndex) else centerLabel;
    dX := FixedOffset(c, sinkIndex, posCenter).value;
  }

  /** What a move keeps: the records, their order, every relative position,
      and every field but position, radius and particle velocity. */
  lemma MovedKeepsShape(c: Contents, dX: Vec3, dV: Vec3, suffix: string, norm: Vec3 -> real)
    ensures var r := Moved(c, dX, dV, suffix, norm);
            && |r.parts| == |c.parts| && |r.sinks| == |c.sinks|
            && (forall i :: 0 <= i < |r.parts| ==>
                  r.parts[i].(pos := c.parts[i].pos, r := c.parts[i].r, vel := c.parts[i].vel) == c.parts[i]
                  && r.parts[i].r == norm(r.parts[i].pos))
            && (forall i :: 0 <= i < |r.sinks| ==>
                  r.sinks[i].(pos := c.sinks[i].pos, r := c.sinks[i].r) == c.sinks[i]
                  && r.sinks[i].r == norm(r.sinks[i].pos))
            && (forall i, j :: 0 <= i < |r.parts| && 0 <= j < |r.parts| ==>
                  Sub(r.parts[i].pos, r.parts[j].pos) == Sub(c.parts[i].pos, c.parts[j].pos))
            && (forall i, j :: 0 <= i < |r.parts| && 0 <= j < |r.sinks| ==>
                  Sub(r.parts[i].pos, r.sinks[j].pos) == Sub(c.parts[i].pos, c.sinks[j].pos))
            && (forall i, j :: 0 <= i < |r.sinks| && 0 <= j < |r.sinks| ==>
                  Sub(r.sinks[i].pos, r.sinks[j].pos) == Sub(c.sinks[i].pos, c.sinks[j].pos))
  {
  }

  /** Sink mode: the chosen sink ends at the origin, particle velocities are
      untouched and the suffix names the sink. */
  lemma CenterOnSink(c: Contents, sinkIndex: int, densestNum: int, centerLabel: string, norm: Vec3 -> real)
    requires SinkExists(c, sinkIndex)
    ensures var r := Center(c, sinkIndex, Zero, false, densestNum, centerLabel, norm);
            && r.Ok?
            && r.value.sinks[sinkIndex].pos == Zero
            && r.value.name.append == CenteredPrefix + DecimalString(sinkIndex)
            && |r.value.parts| == |c.parts|
            && (forall i :: 0 <= i < |c.parts| ==>
                  r.value.parts[i].vel == c.parts[i].vel
                  && r.value.parts[i].pos == Sub(c.parts[i].pos, c.sinks[sinkIndex].pos))
  {
    var s := c.sinks[sinkIndex].pos;
    assert FixedOffset(c, sinkIndex, Zero).value == s;
  }

  /** Position mode: everything moves by the given position, except that a
      position on the midplane borrows the chosen sink's height, which puts
      that sink on the midplane. */
  lemma CenterOnPosition(c: Contents, sinkIndex: int, posCenter: Vec3, densestNum: int, centerLabel: string,
                         norm: Vec3 -> real)
    requires posCenter != Zero && |c.sinks| > 0
    requires posCenter.z == 0.0 ==> SinkExists(c, sinkIndex)
    ensures var r := Center(c, sinkIndex, posCenter, false, densestNum, centerLabel, norm);
            && r.Ok?
            && r.value.name.append == CenteredPrefix + centerLabel
            && |r.value.parts| == |c.parts|
            && (forall i :: 0 <= i < |c.parts| ==> r.value.parts[i].vel == c.parts[i].vel)
            && (posCenter.z != 0.0 ==>
                  forall i :: 0 <= i < |c.parts| ==> r.value.parts[i].pos == Sub(c.parts[i].pos, posCenter))
            && (posCenter.z == 0.0 ==>
                  r.value.sinks[sinkIndex].pos.z == 0.0
                  && forall i :: 0 <= i < |c.parts| ==>
                       r.value.parts[i].pos.x == c.parts[i].pos.x - posCenter.x
                       && r.value.parts[i].pos.y == c.parts[i].pos.y - posCenter.y)
  {
  }

  /** Moving keeps densities, so the densest of the moved particles are the
      moved densest particles. */
  lemma DensestOfMoved(parts: seq<Particle>, n: nat, dX: Vec3, dV: Vec3, norm: Vec3 -> real)
    requires n <= |parts|
    ensures Densest(Map(parts, Mover(dX, dV, norm)), n) == Map(Densest(parts, n), Mover(dX, dV, norm))
  {
    var f := Mover(dX, dV, norm);
    SortByMap(parts, DensityDescending, f, DensityDescending);
    var sorted := SortBy(parts, DensityDescending);
    assert Map(sorted, f)[..n] == Map(sorted[..n], f);
  }

  /** Moving a group by its own mass-weighted mean position and velocity
      leaves its centre at the origin and its momentum zero. */
  lemma MovedByOwnCentre(top: seq<Particle>, norm: Vec3 -> real)
    requires TotalMass(top) != 0.0
    ensures var m := TotalMass(top);
            var f := Mover(DivBy(MassMoment(top), m), DivBy(Momentum(top), m), norm);
            MassMoment(Map(top, f)) == Zero && Momentum(Map(top, f)) == Zero
  {
    var m := TotalMass(top);
    MomentOfMoved(top, DivBy(MassMoment(top), m), DivBy(Momentum(top), m), norm);
    CancelOwnCentre(MassMoment(top), m);
    CancelOwnCentre(Momentum(top), m);
  }

  lemma CancelOwnCentre(a: Vec3, m: real)
    requires m != 0.0
    ensures Sub(a, Scale(DivBy(a, m), m)) == Zero
  {
    assert (a.x / m) * m == a.x && (a.y / m) * m == a.y && (a.z / m) * m == a.z;
  }

  /** Densest mode: afterwards the densest particles (the same ones, since
      moving keeps densities) have their mass-weighted centre at the origin
      and no net momentum. */
  lemma CenterOnDensest(c: Contents, sinkIndex: int, posCenter: Vec3, densestNum: int,
                        centerLabel: string, norm: Vec3 -> real)
    requires DensestMassPositive(c, densestNum)
    requires DensestCount(densestNum) <= |c.parts| && |c.sinks| > 0
    ensures var r := Center(c, sinkIndex, posCenter, true, densestNum, centerLabel, norm);
            var n := DensestCount(densestNum);
            && r.Ok?
            && r.value.name.append == CenteredPrefix + "densest"
            && |r.value.parts| == |c.parts|
            && MassMoment(Densest(r.value.parts, n)) == Zero
            && Momentum(Densest(r.value.parts, n)) == Zero
  {
    var n := DensestCount(densestNum);
    var top := Densest(c.parts, n);
    var m := TotalMass(top);
    var dX := DivBy(MassMoment(top), m);
    var dV := DivBy(Momentum(top), m);
    var r := Center(c, sinkIndex, posCenter, true, densestNum, centerLabel, norm);
    assert r == Ok(Moved(c, dX, dV, "densest", norm));
    DensestOfMoved(c.parts, n, dX, dV, norm);
    MovedByOwnCentre(top, norm);
  }

  // ---------------------------------------------------------------------
  // Outer radius
  // ---------------------------------------------------------------------

  function RadiusAscending(p: Particle): real { p.r }

  /** The mass of the particles up to and including index `j`. */
  function MassThrough(ps: seq<Particle>, j: nat): real
    requires j < |ps|
  {
    TotalMass(ps[..j + 1])
  }

  /** The first `j + 1` particles hold at least mass `t`. */
  predicate Reaches(ps: seq<Particle>, j: nat, t: real)
  {
    j < |ps| && MassThrough(ps, j) >= t
  }

  /** Some prefix of `ps` holds at least mass `t`. */
  predicate EverReaches(ps: seq<Particle>, t: real)
  {
    exists j: nat :: j < |ps| && Reaches(ps, j, t)
  }

  /** `j` is the first index at which the running mass reaches `t`. */
  predicate FirstReaching(ps: seq<Particle>, j: nat, t: real)
  {
    Reaches(ps, j, t) && forall k :: 0 <= k < j ==> !Reaches(ps, k, t)
  }

  /** Adds masses in order and stops at the first index where the running
      total reaches the threshold. */
  method FirstCrossing(ps: seq<Particle>, t: real) returns (c: Option<nat>)
    ensures c.Some? ==> FirstReaching(ps, c.value, t)
    ensures c.None? ==> forall k :: 0 <= k < |ps| ==> !Reaches(ps, k, t)
  {
    var accum := 0.0;
    var j := 0;
    while j < |ps|
      invariant 0 <= j <= |ps|
      invariant accum == TotalMass(ps[..j])
      invariant forall k :: 0 <= k < j ==> !Reaches(ps, k, t)
    {
      accum := accum + ps[j].mass;
      TotalMassAppend(ps[..j], [ps[j]]);
      assert ps[..j + 1] == ps[..j] + [ps[j]];
      if accum >= t {
        return Some(j);
      }
      j := j + 1;
    }
    return None;
  }

  /** A larger threshold is never reached earlier. */
  lemma FirstReachingMonotone(ps: seq<Particle>, t1: real, t2: real, j1: nat, j2: nat)
    requires t1 <= t2 && FirstReaching(ps, j1, t1) && FirstReaching(ps, j2, t2)
    ensures j1 <= j2
  {
    assert Reaches(ps, j2, t1);
  }

  /** The gas mass the source assumes: the count times the first mass. */
  function AssumedTotal(parts: seq<Particle>): real
    requires |parts| >= 1
  {
    |parts| as real * parts[0].mass
  }

  /** The enclosed mass sought for one fraction. */
  function Threshold(parts: seq<Particle>, frac: real): real
    requires |parts| >= 1
  {
    AssumedTotal(parts) * frac
  }

  /** For each fraction, the norm of the position of the first particle,
      in order of stored radius, at which the enclosed mass reaches that
      fraction of the assumed total; `None` where it is never reached (the
      snapshot's radius is then left as it was). */
  method FindOuterRadius(parts: seq<Particle>, fractions: seq<real>, norm: Vec3 -> real)
    returns (radii: seq<Option<real>>)
    requires |parts| >= 1
    ensures |radii| == |fractions|
    ensures var sorted := SortBy(parts, RadiusAscending);
            forall i :: 0 <= i < |radii| ==>
              (radii[i].Some? <==> EverReaches(sorted, Threshold(parts, fractions[i])))
    ensures var sorted := SortBy(parts, RadiusAscending);
            forall i, j: nat :: 0 <= i < |radii| && FirstReaching(sorted, j, Threshold(parts, fractions[i]))
              ==> radii[i] == Some(norm(sorted[j].pos))
  {
    var sorted := SortBy(parts, RadiusAscending);
    radii := [];
    var i := 0;
    while i < |fractions|
      invariant 0 <= i <= |fractions| && |radii| == i
      invariant forall k :: 0 <= k < i ==>
                  (radii[k].Some? <==> EverReaches(sorted, Threshold(parts, fractions[k])))
      invariant forall k, j: nat :: 0 <= k < i && FirstReaching(sorted, j, Threshold(parts, fractions[k]))
                  ==> radii[k] == Some(norm(sorted[j].pos))
    {
      var c := FirstCrossing(sorted, Threshold(parts, fractions[i]));
      if c.Some? {
        forall j: nat | FirstReaching(sorted, j, Threshold(parts, fractions[i]))
          ensures j == c.value
        {
          FirstReachingMonotone(sorted, Threshold(parts, fractions[i]), Threshold(parts, fractions[i]), j, c.value);
          FirstReachingMonotone(sorted, Threshold(parts, fractions[i]), Threshold(parts, fractions[i]), c.value, j);
        }
        radii := radii + [Some(norm(sorted[c.value].pos))];
      } else {
        radii := radii + [None];
      }
      i := i + 1;
    }
  }

  lemma SameMasses(parts: seq<Particle>, sorted: seq<Particle>)
    requires multiset(sorted) == multiset(parts) && |parts| >= 1
    requires forall k :: 0 <= k < |parts| ==> parts[k].mass == parts[0].mass
    ensures forall k :: 0 <= k < |sorted| ==> sorted[k].mass == parts[0].mass
  {
    forall k | 0 <= k < |sorted|
      ensures sorted[k].mass == parts[0].mass
    {
      assert sorted[k] in multiset(parts);
    }
  }

  lemma AtMostWhole(total: real, frac: real)
    requires total >= 0.0 && frac <= 1.0
    ensures total * frac <= total
  {
    assert total * (1.0 - frac) >= 0.0;
  }

  /** With equal non-negative masses the last particle encloses the whole
      assumed total, whatever the order. */
  lemma {:induction false} EqualMassesReachAtLast(parts: seq<Particle>, ordered: seq<Particle>, frac: real)
    requires |parts| >= 1 && parts[0].mass >= 0.0 && frac <= 1.0
    requires forall k :: 0 <= k < |parts| ==> parts[k].mass == parts[0].mass
    requires multiset(ordered) == multiset(parts)
    ensures |ordered| == |parts|
    ensures Reaches(ordered, |ordered| - 1, Threshold(parts, frac))
  {
    assert |ordered| == |multiset(ordered)| == |parts|;
    SameMasses(parts, ordered);
    assert ordered[..|ordered|] == ordered;
    UniformTotal(ordered, parts[0].mass);
    AtMostWhole(AssumedTotal(parts), frac);
  }

  /** With equal non-negative masses, as the generator makes them, every
      fraction up to one is reached by the last particle at the latest, so
      every radius gets set. */
  lemma EqualMassesReachEveryFraction(parts: seq<Particle>, frac: real)
    requires |parts| >= 1 && parts[0].mass >= 0.0 && frac <= 1.0
    requires forall k :: 0 <= k < |parts| ==> parts[k].mass == parts[0].mass
    ensures var sorted := SortBy(parts, RadiusAscending);
            Reaches(sorted, |sorted| - 1, Threshold(parts, frac))
  {
    EqualMassesReachAtLast(parts, SortBy(parts, RadiusAscending), frac);
  }
}
