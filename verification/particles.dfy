/** The particle and sink records the analysis passes read and update, and
    the name fields of a snapshot file. Fields that the default constructors
    leave unset are modelled as zero (`Blank`, `BlankSink`); a sink's type,
    which one constructor path never sets, is optional. */
module Particles {
  import opened Geometry
  import opened Wrappers

  datatype Particle = Particle(
    id: int,
    kind: int,
    pos: Vec3,
    vel: Vec3,
    r: real,            // stored radius, reset to the norm of pos by several passes
    mass: real,
    h: real,            // smoothing length
    dens: real,
    energy: real,
    temp: real,
    press: real,
    sigma: real,        // column density from the snapshot's own estimate
    tau: real,
    q: real,            // cooling source term
    cooling: real,
    realSigma: real,    // column density from the tree walk
    realTau: real,      // optical depth from the tree walk
    realCooling: real)

  const Blank: Particle :=
    Particle(0, 0, Zero, Zero, 0.0, 0.0, 0.0, 0.0, 0.0, 0.0, 0.0, 0.0, 0.0, 0.0, 0.0, 0.0, 0.0, 0.0)

  datatype Sink = Sink(id: int, kind: Option<int>, pos: Vec3, vel: Vec3, r: real, mass: real, h: real)

  const BlankSink: Sink := Sink(0, None, Zero, Zero, 0.0, 0.0, 0.0)

  /** The parts a snapshot file name is built from. */
  datatype NameData = NameData(dir: string, id: string, format: string, snap: string, append: string)

  function TotalMass(ps: seq<Particle>): real
  {
    if ps == [] then 0.0 else ps[0].mass + TotalMass(ps[1..])
  }

  lemma {:induction false} TotalMassAppend(a: seq<Particle>, b: seq<Particle>)
    ensures TotalMass(a + b) == TotalMass(a) + TotalMass(b)
  {
    if a == [] {
      assert a + b == b;
    } else {
      assert (a + b)[0] == a[0];
      assert (a + b)[1..] == a[1..] + b;
      TotalMassAppend(a[1..], b);
    }
  }

  /** Equal masses add up to the count times the mass. */
  lemma {:induction false} UniformTotal(ps: seq<Particle>, m: real)
    requires forall k :: 0 <= k < |ps| ==> ps[k].mass == m
    ensures TotalMass(ps) == |ps| as real * m
  {
    if ps != [] {
      UniformTotal(ps[1..], m);
    }
  }
}
