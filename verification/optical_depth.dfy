/** The optical-depth pass over one snapshot: the particles are ordered, split
    at the midplane, the upper half is put in an octree and walked, the lower
    half is mirrored into the upper half, put in a tree and walked, mirrored
    back, and everything is reassembled in order of particle id. Also the
    selection of the diagnostic rows written afterwards.

    As written, the second tree is built by inserting the mirrored lower half
    into the tree that already holds the upper half (`reuse` below). The
    variant with a fresh tree for the lower half is modelled beside it. */
module OpticalDepth {
  import opened Wrappers
  import opened Geometry
  import opened Sequences
  import opened Particles
  import opened OpticalDepthOctree

  function ReflectParticle(p: Particle): Particle
  {
    p.(pos := ReflectZ(p.pos))
  }

  /** Sort keys: radius descending, x descending, id ascending. */
  function RadiusDescending(p: Particle): real { -p.r }

  function XDescending(p: Particle): real { -p.pos.x }

  function IdAscending(p: Particle): real { p.id as real }

  predicate AboveMidplane(p: Particle)
  {
    p.pos.z >= 0.0
  }

  datatype Hemispheres = Hemispheres(upper: seq<Particle>, lower: seq<Particle>)

  /** Sorts by radius and then by x, both descending, and splits at z = 0:
      particles on the plane go with the upper half. */
  function SplitHemispheres(parts: seq<Particle>): (r: Hemispheres)
    ensures multiset(r.upper) + multiset(r.lower) == multiset(parts)
    ensures forall k :: 0 <= k < |r.upper| ==> r.upper[k].pos.z >= 0.0
    ensures forall k :: 0 <= k < |r.lower| ==> r.lower[k].pos.z < 0.0
  {
    var sorted := SortBy(SortBy(parts, RadiusDescending), XDescending);
    FilterPartition(sorted, AboveMidplane);
    Hemispheres(Filter(sorted, AboveMidplane, true), Filter(sorted, AboveMidplane, false))
  }

  /** The lower half mirrored into the upper half. */
  function Mirrored(parts: seq<Particle>): seq<Particle>
  {
    Map(parts, ReflectParticle)
  }

  /** The particles, sorted by id, with RealSigma and RealTau filled in; the
      two trees walked; and the node list the two LinkTree calls fill. */
  datatype DepthRun = DepthRun(parts: seq<Particle>, upperTree: Node, lowerTree: Node, list: seq<Node>)

  /** The pass with the lower tree built on top of the upper tree (`reuse`)
      or from an empty root. `None` when a construction does not finish
      within the depth bound `fuel`. */
  function FindOpticalDepthWith(parts: seq<Particle>, kappar: Opacity, auToCm: real, fuel: nat, reuse: bool): (r: Option<DepthRun>)
    ensures r.Some? ==> |r.value.parts| == |parts| && SortedBy(r.value.parts, IdAscending)
  {
    var h := SplitHemispheres(parts);
    match Construct(Root, h.upper, fuel)
    case None => None
    case Some(upperTree) =>
      var list := LinkTree(upperTree, []);
      var upper := Walk(upperTree, h.upper, kappar, auToCm);
      var flipped := Mirrored(h.lower);
      match Construct(if reuse then upperTree else Root, flipped, fuel)
      case None => None
      case Some(lowerTree) =>
        var list' := LinkTree(lowerTree, list);
        var lower := Map(Walk(lowerTree, flipped, kappar, auToCm), ReflectParticle);
        assert |h.upper| + |h.lower| == |parts| by {
          assert |multiset(h.upper) + multiset(h.lower)| == |multiset(parts)|;
        }
        Some(DepthRun(SortBy(upper + lower, IdAscending), upperTree, lowerTree, list'))
  }

  /** The pass as the source runs it. */
  function FindOpticalDepth(parts: seq<Particle>, kappar: Opacity, auToCm: real, fuel: nat): (r: Option<DepthRun>)
    ensures r.Some? ==> |r.value.parts| == |parts| && SortedBy(r.value.parts, IdAscending)
  {
    FindOpticalDepthWith(parts, kappar, auToCm, fuel, true)
  }

  /** The pass with a fresh tree for the lower half. */
  function FindOpticalDepthSeparate(parts: seq<Particle>, kappar: Opacity, auToCm: real, fuel: nat): (r: Option<DepthRun>)
    ensures r.Some? ==> |r.value.parts| == |parts| && SortedBy(r.value.parts, IdAscending)
  {
    FindOpticalDepthWith(parts, kappar, auToCm, fuel, false)
  }

  /** A particle with the two walk results cleared. */
  function Strip(p: Particle): Particle
  {
    p.(realSigma := 0.0, realTau := 0.0)
  }

  lemma WalkStrip(t: Node, parts: seq<Particle>, kappar: Opacity, auToCm: real)
    ensures Map(Walk(t, parts, kappar, auToCm), Strip) == Map(parts, Strip)
  {
    var w := Walk(t, parts, kappar, auToCm);
    forall k | 0 <= k < |parts|
      ensures Strip(w[k]) == Strip(parts[k])
    {
      assert w[k].(realSigma := parts[k].realSigma, realTau := parts[k].realTau) == parts[k];
    }
  }

  lemma MirroredWalkStrip(t: Node, lower: seq<Particle>, kappar: Opacity, auToCm: real)
    ensures Map(Map(Walk(t, Mirrored(lower), kappar, auToCm), ReflectParticle), Strip) == Map(lower, Strip)
  {
    var flipped := Mirrored(lower);
    var w := Walk(t, flipped, kappar, auToCm);
    forall k | 0 <= k < |lower|
      ensures Strip(ReflectParticle(w[k])) == Strip(lower[k])
    {
      assert w[k].(realSigma := flipped[k].realSigma, realTau := flipped[k].realTau) == flipped[k];
      ReflectZInvolution(lower[k].pos);
    }
  }

  /** The pass returns the particles it was given, each exactly once, in
      order of id, with nothing but RealSigma and RealTau changed: in
      particular the lower half is mirrored twice and so ends up where it
      started. */
  lemma FindOpticalDepthPermutes(parts: seq<Particle>, kappar: Opacity, auToCm: real, fuel: nat, reuse: bool)
    requires FindOpticalDepthWith(parts, kappar, auToCm, fuel, reuse).Some?
    ensures var run := FindOpticalDepthWith(parts, kappar, auToCm, fuel, reuse).value;
            multiset(Map(run.parts, Strip)) == multiset(Map(parts, Strip))
  {
    var run := FindOpticalDepthWith(parts, kappar, auToCm, fuel, reuse).value;
    var h := SplitHemispheres(parts);
    var upper := Walk(run.upperTree, h.upper, kappar, auToCm);
    var lower := Map(Walk(run.lowerTree, Mirrored(h.lower), kappar, auToCm), ReflectParticle);
    assert run.parts == SortBy(upper + lower, IdAscending);
    WalkStrip(run.upperTree, h.upper, kappar, auToCm);
    MirroredWalkStrip(run.lowerTree, h.lower, kappar, auToCm);
    MapAppend(upper, lower, Strip);
    MapAppend(h.upper, h.lower, Strip);
    assert Map(upper + lower, Strip) == Map(h.upper + h.lower, Strip);
    MapPermutation(run.parts, upper + lower, Strip);
    MapPermutation(h.upper + h.lower, parts, Strip);
  }

  /** In a completed pass both trees are valid; the upper tree holds one
      payload per upper particle, the lower tree one per mirrored lower
      particle and, when the tree is reused, the upper payloads as well; and
      the node list is the upper tree's nodes followed by the lower tree's,
      each in pre-order. */
  lemma FindOpticalDepthTrees(parts: seq<Particle>, kappar: Opacity, auToCm: real, fuel: nat, reuse: bool)
    requires FindOpticalDepthWith(parts, kappar, auToCm, fuel, reuse).Some?
    ensures var run := FindOpticalDepthWith(parts, kappar, auToCm, fuel, reuse).value;
            var h := SplitHemispheres(parts);
            && Valid(run.upperTree, [], None) && Valid(run.lowerTree, [], None)
            && Payloads(run.upperTree) == multiset(Map(h.upper, PointOf))
            && Payloads(run.lowerTree)
               == (if reuse then Payloads(run.upperTree) else multiset{}) + multiset(Map(Mirrored(h.lower), PointOf))
            && run.list == PreOrder(run.upperTree) + PreOrder(run.lowerTree)
  {
    var run := FindOpticalDepthWith(parts, kappar, auToCm, fuel, reuse).value;
    var h := SplitHemispheres(parts);
    RootValid();
    var t1 := Construct(Root, h.upper, fuel);
    assert t1.Some? && run.upperTree == t1.value;
    ConstructValid(Root, h.upper, fuel);
    var base := if reuse then run.upperTree else Root;
    var t2 := Construct(base, Mirrored(h.lower), fuel);
    assert t2.Some? && run.lowerTree == t2.value;
    assert Valid(base, [], None);
    ConstructValid(base, Mirrored(h.lower), fuel);
    assert run.list == LinkTree(run.lowerTree, LinkTree(run.upperTree, []));
    LinkTwoTrees(run.upperTree, run.lowerTree);
  }

  /** What a completed pass returns, in terms of its two walks. */
  lemma RunShape(parts: seq<Particle>, kappar: Opacity, auToCm: real, fuel: nat, reuse: bool)
    requires FindOpticalDepthWith(parts, kappar, auToCm, fuel, reuse).Some?
    ensures var run := FindOpticalDepthWith(parts, kappar, auToCm, fuel, reuse).value;
            var h := SplitHemispheres(parts);
            multiset(run.parts)
            == multiset(Walk(run.upperTree, h.upper, kappar, auToCm)
                        + Map(Walk(run.lowerTree, Mirrored(h.lower), kappar, auToCm), ReflectParticle))
  {
  }

  /** Every particle a completed pass returns comes from one of its two
      walks. */
  lemma RunMember(parts: seq<Particle>, kappar: Opacity, auToCm: real, fuel: nat, reuse: bool, p: Particle)
    requires FindOpticalDepthWith(parts, kappar, auToCm, fuel, reuse).Some?
    requires p in FindOpticalDepthWith(parts, kappar, auToCm, fuel, reuse).value.parts
    ensures var run := FindOpticalDepthWith(parts, kappar, auToCm, fuel, reuse).value;
            var h := SplitHemispheres(parts);
            || p in Walk(run.upperTree, h.upper, kappar, auToCm)
            || p in Map(Walk(run.lowerTree, Mirrored(h.lower), kappar, auToCm), ReflectParticle)
  {
    var run := FindOpticalDepthWith(parts, kappar, auToCm, fuel, reuse).value;
    var h := SplitHemispheres(parts);
    RunShape(parts, kappar, auToCm, fuel, reuse);
    var upper := Walk(run.upperTree, h.upper, kappar, auToCm);
    var lower := Map(Walk(run.lowerTree, Mirrored(h.lower), kappar, auToCm), ReflectParticle);
    assert p in multiset(upper + lower);
  }

  /** A particle's stored sums are the column above it in the tree of its
      half: an upper particle's in the upper tree, a lower particle's, at its
      mirrored position, in the lower tree. */
  predicate StoresColumn(p: Particle, upperTree: Node, lowerTree: Node, kappar: Opacity, auToCm: real)
  {
    if p.pos.z >= 0.0 then Column(p.realSigma, p.realTau) == ColumnAbove(upperTree, p.pos, kappar, auToCm)
    else Column(p.realSigma, p.realTau) == ColumnAbove(lowerTree, ReflectZ(p.pos), kappar, auToCm)
  }

  lemma UpperColumns(t: Node, lowerTree: Node, upper: seq<Particle>, kappar: Opacity, auToCm: real)
    requires Valid(t, [], None)
    requires forall k :: 0 <= k < |upper| ==> upper[k].pos.z >= 0.0
    ensures forall p :: p in Walk(t, upper, kappar, auToCm) ==> StoresColumn(p, t, lowerTree, kappar, auToCm)
  {
    var w := Walk(t, upper, kappar, auToCm);
    WalkStoresColumnAbove(t, [], None, upper, kappar, auToCm);
    forall k | 0 <= k < |w|
      ensures StoresColumn(w[k], t, lowerTree, kappar, auToCm)
    {
      assert w[k].(realSigma := upper[k].realSigma, realTau := upper[k].realTau) == upper[k];
    }
  }

  lemma LowerColumns(upperTree: Node, t: Node, lower: seq<Particle>, kappar: Opacity, auToCm: real)
    requires Valid(t, [], None)
    requires forall k :: 0 <= k < |lower| ==> lower[k].pos.z < 0.0
    ensures forall p :: p in Map(Walk(t, Mirrored(lower), kappar, auToCm), ReflectParticle) ==>
              StoresColumn(p, upperTree, t, kappar, auToCm)
  {
    var flipped := Mirrored(lower);
    var w := Walk(t, flipped, kappar, auToCm);
    var back := Map(w, ReflectParticle);
    WalkStoresColumnAbove(t, [], None, flipped, kappar, auToCm);
    forall m | 0 <= m < |back|
      ensures StoresColumn(back[m], upperTree, t, kappar, auToCm)
    {
      assert w[m].(realSigma := flipped[m].realSigma, realTau := flipped[m].realTau) == flipped[m];
      ReflectZInvolution(lower[m].pos);
    }
  }

  /** Each particle's stored sums are the column above it in the tree of its
      half. */
  lemma FindOpticalDepthColumns(parts: seq<Particle>, kappar: Opacity, auToCm: real, fuel: nat, reuse: bool)
    requires FindOpticalDepthWith(parts, kappar, auToCm, fuel, reuse).Some?
    ensures var run := FindOpticalDepthWith(parts, kappar, auToCm, fuel, reuse).value;
            forall p :: p in run.parts ==> StoresColumn(p, run.upperTree, run.lowerTree, kappar, auToCm)
  {
    var run := FindOpticalDepthWith(parts, kappar, auToCm, fuel, reuse).value;
    var h := SplitHemispheres(parts);
    FindOpticalDepthTrees(parts, kappar, auToCm, fuel, reuse);
    UpperColumns(run.upperTree, run.lowerTree, h.upper, kappar, auToCm);
    LowerColumns(run.upperTree, run.lowerTree, h.lower, kappar, auToCm);
    forall p | p in run.parts
      ensures StoresColumn(p, run.upperTree, run.lowerTree, kappar, auToCm)
    {
      RunMember(parts, kappar, auToCm, fuel, reuse, p);
    }
  }

  /** Membership in a mapped sequence. */
  lemma MapMember<T, U>(s: seq<T>, f: T -> U, y: U)
    requires y in multiset(Map(s, f))
    ensures exists k :: 0 <= k < |s| && y == f(s[k])
  {
    var k :| 0 <= k < |Map(s, f)| && Map(s, f)[k] == y;
  }

  predicate NonNegativeDensities(ps: seq<Particle>)
  {
    forall k :: 0 <= k < |ps| ==> ps[k].dens >= 0.0
  }

  predicate NonNegativeSums(p: Particle)
  {
    p.realSigma >= 0.0 && p.realTau >= 0.0
  }

  lemma PartNonNegative(s: seq<Particle>, parts: seq<Particle>)
    requires multiset(s) <= multiset(parts) && NonNegativeDensities(parts)
    ensures NonNegativeDensities(s)
  {
    forall k | 0 <= k < |s|
      ensures s[k].dens >= 0.0
    {
      assert s[k] in multiset(parts);
    }
  }

  lemma PointsNonNegative(s: seq<Particle>)
    requires NonNegativeDensities(s)
    ensures forall q :: q in multiset(Map(s, PointOf)) ==> q.dens >= 0.0
  {
    forall q | q in multiset(Map(s, PointOf))
      ensures q.dens >= 0.0
    {
      MapMember(s, PointOf, q);
    }
  }

  lemma WalkedHalvesNonNegative(upperTree: Node, lowerTree: Node, upper: seq<Particle>, lower: seq<Particle>,
                                kappar: Opacity, auToCm: real)
    requires Valid(upperTree, [], None) && Valid(lowerTree, [], None)
    requires forall q :: q in Payloads(upperTree) ==> q.dens >= 0.0
    requires forall q :: q in Payloads(lowerTree) ==> q.dens >= 0.0
    requires NonNegativeOpacity(kappar) && auToCm >= 0.0
    ensures forall p :: p in Walk(upperTree, upper, kappar, auToCm) ==> NonNegativeSums(p)
    ensures forall p :: p in Map(Walk(lowerTree, Mirrored(lower), kappar, auToCm), ReflectParticle) ==> NonNegativeSums(p)
  {
    WalkNonNegative(upperTree, [], None, upper, kappar, auToCm);
    WalkNonNegative(lowerTree, [], None, Mirrored(lower), kappar, auToCm);
  }

  /** With non-negative densities and opacity, every stored sum is
      non-negative. */
  lemma FindOpticalDepthNonNegative(parts: seq<Particle>, kappar: Opacity, auToCm: real, fuel: nat, reuse: bool)
    requires FindOpticalDepthWith(parts, kappar, auToCm, fuel, reuse).Some?
    requires NonNegativeDensities(parts)
    requires NonNegativeOpacity(kappar) && auToCm >= 0.0
    ensures forall p :: p in FindOpticalDepthWith(parts, kappar, auToCm, fuel, reuse).value.parts ==> NonNegativeSums(p)
  {
    var run := FindOpticalDepthWith(parts, kappar, auToCm, fuel, reuse).value;
    var h := SplitHemispheres(parts);
    FindOpticalDepthTrees(parts, kappar, auToCm, fuel, reuse);
    PartNonNegative(h.upper, parts);
    PartNonNegative(h.lower, parts);
    PointsNonNegative(h.upper);
    PointsNonNegative(Mirrored(h.lower));
    WalkedHalvesNonNegative(run.upperTree, run.lowerTree, h.upper, h.lower, kappar, auToCm);
    forall p | p in run.parts
      ensures NonNegativeSums(p)
    {
      RunMember(parts, kappar, auToCm, fuel, reuse, p);
    }
  }

  lemma InUpperHalf(parts: seq<Particle>, i: nat)
    requires i < |parts| && parts[i].pos.z >= 0.0
    ensures parts[i] in SplitHemispheres(parts).upper
  {
    var sorted := SortBy(SortBy(parts, RadiusDescending), XDescending);
    assert parts[i] in multiset(sorted);
  }

  lemma InLowerHalf(parts: seq<Particle>, j: nat)
    requires j < |parts| && parts[j].pos.z < 0.0
    ensures parts[j] in SplitHemispheres(parts).lower
  {
    var sorted := SortBy(SortBy(parts, RadiusDescending), XDescending);
    assert parts[j] in multiset(sorted);
  }

  lemma PassFailsWithLowerTree(parts: seq<Particle>, kappar: Opacity, auToCm: real, fuel: nat, reuse: bool)
    requires var h := SplitHemispheres(parts);
             var t1 := Construct(Root, h.upper, fuel);
             t1.Some? && Construct(if reuse then t1.value else Root, Mirrored(h.lower), fuel).None?
    ensures FindOpticalDepthWith(parts, kappar, auToCm, fuel, reuse) == None
  {
  }

  lemma MapHas<T, U>(s: seq<T>, f: T -> U, x: T)
    requires x in s
    ensures f(x) in multiset(Map(s, f))
  {
    var k :| 0 <= k < |s| && s[k] == x;
    assert Map(s, f)[k] == f(x);
  }

  /** Building the upper tree keeps it valid and stores every upper
      particle's payload in it. */
  lemma UpperPointHeld(upper: seq<Particle>, fuel: nat, p: Particle)
    requires Construct(Root, upper, fuel).Some? && p in upper
    ensures Valid(Construct(Root, upper, fuel).value, [], None)
    ensures PointOf(p) in Payloads(Construct(Root, upper, fuel).value)
  {
    MapHas(upper, PointOf, p);
    RootValid();
    ConstructValid(Root, upper, fuel);
  }

  /** As written, a lower-half particle that is the mirror image of an
      upper-half particle lands, once mirrored, on a point the reused tree
      already holds, and the construction never finishes. */
  lemma MirrorPairNeverFinishes(parts: seq<Particle>, kappar: Opacity, auToCm: real, fuel: nat, i: nat, j: nat)
    requires i < |parts| && j < |parts|
    requires parts[i].pos.z >= 0.0 && parts[j].pos == ReflectZ(parts[i].pos) && parts[j].pos.z < 0.0
    ensures FindOpticalDepth(parts, kappar, auToCm, fuel) == None
  {
    var h := SplitHemispheres(parts);
    InUpperHalf(parts, i);
    InLowerHalf(parts, j);
    var b :| 0 <= b < |h.lower| && h.lower[b] == parts[j];
    var flipped := Mirrored(h.lower);
    ReflectZInvolution(parts[i].pos);
    assert flipped[b].pos == parts[i].pos;
    var t1 := Construct(Root, h.upper, fuel);
    if t1.Some? {
      UpperPointHeld(h.upper, fuel, parts[i]);
      ConstructMeetsPayload(t1.value, flipped, fuel, b, PointOf(parts[i]));
      PassFailsWithLowerTree(parts, kappar, auToCm, fuel, true);
    }
  }

  /** With a fresh tree for the lower half, the lower tree holds exactly the
      mirrored lower particles: no upper-half material enters a lower
      particle's column. */
  lemma SeparateLowerTreeHoldsLowerHalfOnly(parts: seq<Particle>, kappar: Opacity, auToCm: real, fuel: nat)
    requires FindOpticalDepthSeparate(parts, kappar, auToCm, fuel).Some?
    ensures var run := FindOpticalDepthSeparate(parts, kappar, auToCm, fuel).value;
            && Payloads(run.lowerTree) == multiset(Map(Mirrored(SplitHemispheres(parts).lower), PointOf))
            && forall q :: q in Payloads(run.lowerTree) ==>
                 exists k :: 0 <= k < |parts| && parts[k].pos.z < 0.0 && q == PointOf(ReflectParticle(parts[k]))
  {
    var run := FindOpticalDepthSeparate(parts, kappar, auToCm, fuel).value;
    var h := SplitHemispheres(parts);
    var flipped := Mirrored(h.lower);
    FindOpticalDepthTrees(parts, kappar, auToCm, fuel, false);
    forall q | q in Payloads(run.lowerTree)
      ensures exists k :: 0 <= k < |parts| && parts[k].pos.z < 0.0 && q == PointOf(ReflectParticle(parts[k]))
    {
      MapMember(flipped, PointOf, q);
      var m :| 0 <= m < |flipped| && q == PointOf(flipped[m]);
      assert h.lower[m] in multiset(parts);
      var k :| 0 <= k < |parts| && parts[k] == h.lower[m];
    }
  }

  /** One diagnostic row: the position's norm, x, y, z, the snapshot's tau,
      the walked tau, density, temperature, cooling source, pressure, the
      snapshot's cooling, the walked cooling, the snapshot's sigma and the
      walked sigma. */
  function Row(p: Particle, norm: Vec3 -> real): seq<real>
  {
    [norm(p.pos), p.pos.x, p.pos.y, p.pos.z, p.tau, p.realTau, p.dens, p.temp,
     p.q, p.press, p.cooling, p.realCooling, p.sigma, p.realSigma]
  }

  predicate Walked(p: Particle)
  {
    p.realTau != 0.0
  }

  function RowOf(norm: Vec3 -> real): Particle -> seq<real>
  {
    p => Row(p, norm)
  }

  /** The rows written after the pass: one per particle whose walked tau is
      not zero, in the particles' order. */
  function DiagnosticRows(parts: seq<Particle>, norm: Vec3 -> real): (r: seq<seq<real>>)
    ensures r == Map(Filter(parts, Walked, true), RowOf(norm))
  {
    if parts == [] then []
    else
      var rest := DiagnosticRows(parts[1..], norm);
      if Walked(parts[0]) then
        MapAppend([parts[0]], Filter(parts[1..], Walked, true), RowOf(norm));
        [Row(parts[0], norm)] + rest
      else rest
  }

  /** At most one row per particle, each of the fourteen columns with a
      non-zero walked tau. */
  lemma DiagnosticRowsShape(parts: seq<Particle>, norm: Vec3 -> real)
    ensures var r := DiagnosticRows(parts, norm);
            && |r| <= |parts|
            && forall k :: 0 <= k < |r| ==> |r[k]| == 14 && r[k][5] != 0.0
  {
    var kept := Filter(parts, Walked, true);
    var r := DiagnosticRows(parts, norm);
    forall k | 0 <= k < |r|
      ensures |r[k]| == 14 && r[k][5] != 0.0
    {
      assert r[k] == RowOf(norm)(kept[k]);
      RowColumns(kept[k], norm);
    }
  }

  lemma RowColumns(p: Particle, norm: Vec3 -> real)
    ensures |RowOf(norm)(p)| == 14 && RowOf(norm)(p)[5] == p.realTau
  {
  }

  /** Every walked particle has its row, and no other particle has one. */
  lemma DiagnosticRowsMembers(parts: seq<Particle>, norm: Vec3 -> real)
    ensures var r := DiagnosticRows(parts, norm);
            && (forall p :: p in parts && Walked(p) ==> Row(p, norm) in r)
            && (forall row :: row in r ==> exists p :: p in parts && Walked(p) && row == Row(p, norm))
  {
    var kept := Filter(parts, Walked, true);
    var r := DiagnosticRows(parts, norm);
    assert |r| == |kept|;
    forall p | p in parts && Walked(p)
      ensures Row(p, norm) in r
    {
      assert p in kept;
      var k :| 0 <= k < |kept| && kept[k] == p;
      assert r[k] == RowOf(norm)(kept[k]);
    }
    forall row | row in r
      ensures exists p :: p in parts && Walked(p) && row == Row(p, norm)
    {
      var k :| 0 <= k < |r| && r[k] == row;
      var p := kept[k];
      assert p in multiset(kept);
      assert p in parts;
      assert row == Row(p, norm);
    }
  }
}
