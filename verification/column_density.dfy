/** The neighbour-mass estimate of column density, kept beside the tree walk
    (its only call in the run loop is commented out). Particles are sorted by
    height; a particle on or above the midplane adds up its own mass and the
    masses of the particles before it (higher up) that are close enough, one
    below the midplane the masses of the particles after it (lower down), and
    the sum is spread over a disc of radius four smoothing lengths.

    "Close enough" compares the squared distance with the unsquared search
    length, exactly as the source does. Pi and the solar-masses-per-square-AU
    to grams-per-square-centimetre factor are parameters. */
module ColumnDensity {
  import opened Geometry
  import opened Sequences
  import opened Particles

  function ZDescending(p: Particle): real { -p.pos.z }

  /** The search length: four smoothing lengths. */
  function Search(a: Particle): real { 4.0 * a.h }

  /** The mass of `b` if it counts as a neighbour of `a`, else nothing. */
  function NeighbourTerm(a: Particle, b: Particle): real
  {
    if Norm2(Sub(a.pos, b.pos)) > Search(a) then 0.0 else b.mass
  }

  /** The summed mass of the neighbours of `a` among `bs`. */
  function NeighbourMass(a: Particle, bs: seq<Particle>): real
  {
    if bs == [] then 0.0 else NeighbourTerm(a, bs[0]) + NeighbourMass(a, bs[1..])
  }

  lemma {:induction false} NeighbourMassAppend(a: Particle, bs: seq<Particle>, b: Particle)
    ensures NeighbourMass(a, bs + [b]) == NeighbourMass(a, bs) + NeighbourTerm(a, b)
  {
    if bs == [] {
      assert [b][1..] == [];
    } else {
      assert (bs + [b])[1..] == bs[1..] + [b];
      NeighbourMassAppend(a, bs[1..], b);
    }
  }

  /** Neighbour masses only count: with non-negative masses the column mass
      is at least the particle's own. */
  lemma {:induction false} NeighbourMassNonNegative(a: Particle, bs: seq<Particle>)
    requires forall k :: 0 <= k < |bs| ==> bs[k].mass >= 0.0
    ensures NeighbourMass(a, bs) >= 0.0
  {
    if bs != [] {
      NeighbourMassNonNegative(a, bs[1..]);
    }
  }

  /** Mass per unit area over a disc of radius `search`, converted to
      grams per square centimetre. */
  function SurfaceDensity(m: real, search: real, pi: real, conv: real): real
    requires pi != 0.0 && search != 0.0
  {
    assert pi * search * search != 0.0;
    (m / (pi * search * search)) * conv
  }

  /** The estimate for the particle at `i` of the sorted list from the
      particles before it (`above`) or after it. */
  function ColumnFrom(ps: seq<Particle>, i: nat, above: bool, pi: real, conv: real): real
    requires i < |ps| && pi != 0.0 && ps[i].h != 0.0
  {
    var others := if above then ps[..i] else ps[i + 1..];
    SurfaceDensity(ps[i].mass + NeighbourMass(ps[i], others), Search(ps[i]), pi, conv)
  }

  /** Everything except RealSigma. */
  function ClearRealSigma(p: Particle): Particle { p.(realSigma := 0.0) }

  /** The two lists hold the same particles in the same order, up to
      RealSigma. */
  predicate SameBodies(xs: seq<Particle>, ys: seq<Particle>)
  {
    |xs| == |ys| && forall k :: 0 <= k < |xs| ==> xs[k].(realSigma := ys[k].realSigma) == ys[k]
  }

  /** The estimate reads positions, masses and smoothing lengths only, so
      writing RealSigma into earlier particles does not disturb later ones. */
  lemma {:induction false} NeighbourMassIgnoresSigma(a: Particle, b: Particle, xs: seq<Particle>, ys: seq<Particle>)
    requires a.(realSigma := b.realSigma) == b
    requires SameBodies(xs, ys)
    ensures NeighbourMass(a, xs) == NeighbourMass(b, ys)
  {
    if xs != [] {
      assert xs[0].(realSigma := ys[0].realSigma) == ys[0];
      assert SameBodies(xs[1..], ys[1..]) by {
        forall k | 0 <= k < |xs[1..]|
          ensures xs[1..][k].(realSigma := ys[1..][k].realSigma) == ys[1..][k]
        {
          assert xs[1..][k] == xs[k + 1] && ys[1..][k] == ys[k + 1];
        }
      }
      NeighbourMassIgnoresSigma(a, b, xs[1..], ys[1..]);
    }
  }

  lemma SetSigmaKeepsBodies(r: seq<Particle>, sorted: seq<Particle>, i: nat, v: real)
    requires SameBodies(r, sorted) && i < |r|
    ensures SameBodies(r[i := r[i].(realSigma := v)], sorted)
  {
  }

  /** The mass a particle sees among the particles before it. */
  method MassAbove(ps: seq<Particle>, i: nat) returns (m: real)
    requires i < |ps|
    ensures m == ps[i].mass + NeighbourMass(ps[i], ps[..i])
  {
    var a := ps[i];
    var search := 4.0 * a.h;
    m := a.mass;
    var j := 0;
    while j < i
      invariant 0 <= j <= i
      invariant m == a.mass + NeighbourMass(a, ps[..j])
    {
      var b := ps[j];
      var dist := Norm2(Sub(a.pos, b.pos));
      NeighbourMassAppend(a, ps[..j], b);
      assert ps[..j + 1] == ps[..j] + [b];
      if dist <= search {
        m := m + b.mass;
      }
      j := j + 1;
    }
  }

  /** The mass a particle sees among the particles after it, scanned from
      the end of the list. */
  method MassBelow(ps: seq<Particle>, i: nat) returns (m: real)
    requires i < |ps|
    ensures m == ps[i].mass + NeighbourMass(ps[i], ps[i + 1..])
  {
    var a := ps[i];
    var search := 4.0 * a.h;
    m := a.mass;
    var j := |ps| - 1;
    while j > i
      invariant i <= j <= |ps| - 1
      invariant m == a.mass + NeighbourMass(a, ps[j + 1..])
    {
      var b := ps[j];
      assert ps[j..][1..] == ps[j + 1..];
      var dist := Norm2(Sub(a.pos, b.pos));
      if dist <= search {
        m := m + b.mass;
      }
      j := j - 1;
    }
  }

  /** Sorting keeps every smoothing length non-zero. */
  lemma SortedSmoothed(parts: seq<Particle>, sorted: seq<Particle>)
    requires Smoothed(parts)
    requires multiset(sorted) == multiset(parts)
    ensures Smoothed(sorted)
  {
    forall k | 0 <= k < |sorted|
      ensures sorted[k].h != 0.0
    {
      assert sorted[k] in multiset(parts);
    }
  }

  /** Heights in the list never increase. */
  predicate TopFirst(ps: seq<Particle>)
  {
    forall i, j :: 0 <= i < j < |ps| ==> ps[i].pos.z >= ps[j].pos.z
  }

  predicate Smoothed(ps: seq<Particle>)
  {
    forall k :: 0 <= k < |ps| ==> ps[k].h != 0.0
  }

  /** The first pass: walking down from the top, every particle on or above
      the midplane takes its estimate from the particles above it; the walk
      stops at the first particle below the midplane, which with the list
      top first leaves every particle below the midplane as it was. */
  method UpperPass(sorted: seq<Particle>, pi: real, conv: real) returns (r: seq<Particle>)
    requires pi != 0.0 && Smoothed(sorted) && TopFirst(sorted)
    ensures SameBodies(r, sorted)
    ensures forall k :: 0 <= k < |r| && sorted[k].pos.z >= 0.0 ==> r[k].realSigma == ColumnFrom(sorted, k, true, pi, conv)
    ensures forall k :: 0 <= k < |r| && sorted[k].pos.z < 0.0 ==> r[k] == sorted[k]
  {
    r := sorted;
    var i := 0;
    while i < |r|
      invariant 0 <= i <= |r|
      invariant SameBodies(r, sorted)
      invariant forall k :: 0 <= k < i ==> r[k].realSigma == ColumnFrom(sorted, k, true, pi, conv)
      invariant forall k :: i <= k < |r| ==> r[k] == sorted[k]
      invariant forall k :: 0 <= k < i ==> sorted[k].pos.z >= 0.0
    {
      if r[i].pos.z < 0.0 {
        break;
      }
      var m := MassAbove(r, i);
      NeighbourMassIgnoresSigma(r[i], sorted[i], r[..i], sorted[..i]);
      var v := SurfaceDensity(m, 4.0 * r[i].h, pi, conv);
      assert v == ColumnFrom(sorted, i, true, pi, conv);
      SetSigmaKeepsBodies(r, sorted, i, v);
      r := r[i := r[i].(realSigma := v)];
      i := i + 1;
    }
    forall k | 0 <= k < |r| && sorted[k].pos.z >= 0.0
      ensures r[k].realSigma == ColumnFrom(sorted, k, true, pi, conv)
    {
      if k >= i {
        assert false;
      }
    }
  }

  /** The second pass: walking up from the bottom, every particle on or
      below the midplane takes its estimate from the particles below it; the
      walk stops at the first particle above the midplane, so those keep
      what the first pass gave them. */
  method LowerPass(sorted: seq<Particle>, mid: seq<Particle>, pi: real, conv: real) returns (r: seq<Particle>)
    requires pi != 0.0 && Smoothed(sorted) && TopFirst(sorted)
    requires SameBodies(mid, sorted)
    ensures SameBodies(r, sorted)
    ensures forall k :: 0 <= k < |r| && sorted[k].pos.z <= 0.0 ==> r[k].realSigma == ColumnFrom(sorted, k, false, pi, conv)
    ensures forall k :: 0 <= k < |r| && sorted[k].pos.z > 0.0 ==> r[k] == mid[k]
  {
    r := mid;
    var i: int := |r| - 1;
    while i >= 0
      invariant -1 <= i < |r|
      invariant SameBodies(r, sorted)
      invariant forall k :: i < k < |r| ==> sorted[k].pos.z <= 0.0
      invariant forall k :: i < k < |r| ==> r[k].realSigma == ColumnFrom(sorted, k, false, pi, conv)
      invariant forall k :: 0 <= k <= i ==> r[k] == mid[k]
    {
      if r[i].pos.z > 0.0 {
        break;
      }
      var m := MassBelow(r, i);
      NeighbourMassIgnoresSigma(r[i], sorted[i], r[i + 1..], sorted[i + 1..]);
      var v := SurfaceDensity(m, 4.0 * r[i].h, pi, conv);
      assert v == ColumnFrom(sorted, i, false, pi, conv);
      SetSigmaKeepsBodies(r, sorted, i, v);
      r := r[i := r[i].(realSigma := v)];
      i := i - 1;
    }
    forall k | 0 <= k < |r| && sorted[k].pos.z <= 0.0
      ensures r[k].realSigma == ColumnFrom(sorted, k, false, pi, conv)
    {
      if k <= i {
        assert false;
      }
    }
  }

  /** Sorts by height, top first, and fills in RealSigma: every particle
      strictly above the midplane from the particles higher up, every
      particle on or below it from the particles lower down (a particle on
      the midplane is visited by both passes and keeps the second result).
      Nothing but RealSigma changes. */
  method FindColumnDensity(parts: seq<Particle>, pi: real, conv: real) returns (r: seq<Particle>)
    requires pi != 0.0 && Smoothed(parts)
    ensures SameBodies(r, SortBy(parts, ZDescending))
    ensures Smoothed(SortBy(parts, ZDescending))
    ensures multiset(Map(r, ClearRealSigma)) == multiset(Map(parts, ClearRealSigma))
    ensures TopFirst(r)
    ensures var sorted := SortBy(parts, ZDescending);
            forall k :: 0 <= k < |r| && r[k].pos.z > 0.0 ==> r[k].realSigma == ColumnFrom(sorted, k, true, pi, conv)
    ensures var sorted := SortBy(parts, ZDescending);
            forall k :: 0 <= k < |r| && r[k].pos.z <= 0.0 ==> r[k].realSigma == ColumnFrom(sorted, k, false, pi, conv)
  {
    var sorted := SortBy(parts, ZDescending);
    SortedSmoothed(parts, sorted);
    assert TopFirst(sorted) by {
      forall i, j | 0 <= i < j < |sorted|
        ensures sorted[i].pos.z >= sorted[j].pos.z
      {
        assert ZDescending(sorted[i]) <= ZDescending(sorted[j]);
      }
    }
    var mid := UpperPass(sorted, pi, conv);
    r := LowerPass(sorted, mid, pi, conv);
    assert Map(r, ClearRealSigma) == Map(sorted, ClearRealSigma);
    MapPermutation(sorted, parts, ClearRealSigma);
  }
}
