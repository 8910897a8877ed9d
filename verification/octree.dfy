/** The optical-depth octree: an 8-way spatial tree whose leaves hold at most
    one payload (a copy of a particle's position, density and temperature),
    flattened in pre-order and walked along each particle's vertical column
    to accumulate column density and optical depth.

    The source links nodes with raw `_Next`/`_More` pointers. Here a pointer
    is an `Address`, the sequence of child indices followed from the root, and
    NULL is `None`. Insertion has no depth limit in the source, so `Insert`
    takes a depth bound `fuel` and answers `None` when the recursion would go
    deeper; `CoincidentInsertNeverFinishes` shows that for coincident points
    no bound is enough. */
module OpticalDepthOctree {
  import opened Wrappers
  import opened Geometry
  import opened Sequences
  import opened Particles

  /** The payload copied from a particle when the tree is built. */
  datatype Point = Point(pos: Vec3, dens: real, temp: real)

  /** A node's position in the tree: the child indices followed from the root. */
  type Address = seq<nat>

  /** `kids` is empty for a leaf and holds the eight children of an internal
      node; `total` is the node's TotalPoints counter. */
  datatype Node = Node(
    origin: Vec3,
    half: Vec3,
    kids: seq<Node>,
    data: Option<Point>,
    total: int,
    next: Option<Address>,
    more: Option<Address>)

  /** A freshly constructed node: no children, no payload, counter at zero
      (the class declaration that initialises the counter is not part of
      this model; zero is assumed). */
  function NewNode(origin: Vec3, half: Vec3, next: Option<Address>): Node
  {
    Node(origin, half, [], None, 0, next, None)
  }

  /** The extent of the tree each hemisphere pass builds. */
  const RootHalf: Vec3 := Vec3(1024.0, 1024.0, 1024.0)

  const Root: Node := NewNode(Zero, RootHalf, None)

  /** The empty root satisfies the tree invariant and holds nothing. */
  lemma RootValid()
    ensures Valid(Root, [], None) && Payloads(Root) == multiset{}
  {
  }

  /** A node is a leaf when its first child slot is empty. */
  predicate IsLeaf(t: Node)
  {
    |t.kids| == 0
  }

  /** The child slot a point belongs to: bit 4 for x, bit 2 for y, bit 1 for
      z, each set when the coordinate is at or above the origin's. */
  function Octant(origin: Vec3, p: Vec3): (r: nat)
    ensures r < 8
    ensures r >= 4 <==> p.x >= origin.x
    ensures r % 4 >= 2 <==> p.y >= origin.y
    ensures r % 2 == 1 <==> p.z >= origin.z
  {
    (if p.x >= origin.x then 4 else 0)
    + (if p.y >= origin.y then 2 else 0)
    + (if p.z >= origin.z then 1 else 0)
  }

  /** The centre of child `i`: half a half-extent towards the side selected by
      each bit of `i`. */
  function ChildOrigin(origin: Vec3, half: Vec3, i: nat): Vec3
  {
    Vec3(origin.x + half.x * (if i % 8 >= 4 then 0.5 else -0.5),
         origin.y + half.y * (if i % 4 >= 2 then 0.5 else -0.5),
         origin.z + half.z * (if i % 2 == 1 then 0.5 else -0.5))
  }

  predicate Positive(v: Vec3)
  {
    v.x > 0.0 && v.y > 0.0 && v.z > 0.0
  }

  /** For a cell with positive extent, child `i`'s centre lies in octant `i`
      of its parent, so the eight children occupy eight different octants. */
  lemma ChildOriginInOctant(origin: Vec3, half: Vec3, i: nat)
    requires Positive(half)
    requires i < 8
    ensures Octant(origin, ChildOrigin(origin, half, i)) == i
  {
    var c := ChildOrigin(origin, half, i);
    var o := Octant(origin, c);
    assert o >= 4 <==> i >= 4;
    assert o % 4 >= 2 <==> i % 4 >= 2;
    assert o % 2 == 1 <==> i % 2 == 1;
  }

  /** The eight children made when a leaf splits. Child `i` links to child
      `i + 1`; the last child takes over the parent's `next` link. */
  function Split(t: Node, addr: Address): (kids: seq<Node>)
    ensures |kids| == 8
    ensures forall i :: 0 <= i < 8 ==> kids[i].kids == [] && kids[i].data == None && WellFormed(kids[i])
  {
    seq(8, i requires 0 <= i < 8 =>
      NewNode(ChildOrigin(t.origin, t.half, i), Scale(t.half, 0.5),
              if i < 7 then Some(addr + [i + 1]) else t.next))
  }

  /** Every node has either no children or all eight. */
  predicate WellFormed(t: Node)
  {
    && (|t.kids| == 0 || |t.kids| == 8)
    && forall i :: 0 <= i < |t.kids| ==> WellFormed(t.kids[i])
  }

  /** Inserts `p` into the subtree `t` found at `addr`. The counter goes up
      first; an empty leaf stores the point; an occupied leaf clears its
      payload, splits, and re-inserts the old point and then the new one; an
      internal node hands the point to the child of its octant and points its
      `more` link there. A leaf whose counter is still at most one after the
      increment keeps its payload and drops `p`, as the source's final `else
      if` does (this cannot happen in a tree that satisfies `Valid`). */
  function Insert(t: Node, p: Point, addr: Address, fuel: nat): (r: Option<Node>)
    requires WellFormed(t)
    ensures r.Some? ==> WellFormed(r.value)
    ensures r.Some? ==> r.value.origin == t.origin && r.value.half == t.half && r.value.next == t.next
    decreases fuel, 0
  {
    var t1 := t.(total := t.total + 1);
    if IsLeaf(t1) then
      if t1.data.None? then
        Some(t1.(data := Some(p)))
      else if t1.total > 1 then
        if fuel == 0 then None
        else SplitInsert(t1, p, addr, fuel - 1)
      else
        Some(t1)
    else
      if fuel == 0 then None
      else
        match InsertIntoKids(t1.kids, t1.origin, p, addr, fuel - 1)
        case None => None
        case Some(kids) => Some(t1.(kids := kids, more := Some(addr + [Octant(t1.origin, p.pos)])))
  }

  /** The split of an occupied leaf `t` at `addr`: its payload is cleared
      and it takes the children `SplitKids` makes. */
  function SplitInsert(t: Node, p: Point, addr: Address, fuel: nat): (r: Option<Node>)
    requires IsLeaf(t) && t.data.Some?
    ensures r.Some? ==> WellFormed(r.value)
    ensures r.Some? ==> r.value.origin == t.origin && r.value.half == t.half && r.value.next == t.next
    decreases fuel, 3
  {
    match SplitKids(t, p, addr, fuel)
    case None => None
    case Some(kids) => Some(t.(data := None, kids := kids, more := Some(addr + [0])))
  }

  /** Eight fresh children of the leaf `t`, with its old payload and then
      `p` inserted into the children of their octants, each with depth bound
      `fuel`. */
  function SplitKids(t: Node, p: Point, addr: Address, fuel: nat): (r: Option<seq<Node>>)
    requires t.data.Some?
    ensures r.Some? ==> |r.value| == 8 && forall i :: 0 <= i < 8 ==> WellFormed(r.value[i])
    decreases fuel, 2
  {
    match InsertIntoKids(Split(t, addr), t.origin, t.data.value, addr, fuel)
    case None => None
    case Some(kids1) => InsertIntoKids(kids1, t.origin, p, addr, fuel)
  }

  /** Inserts `p` into the child of its octant among the eight children of
      the node with the given origin at `addr`. */
  function InsertIntoKids(kids: seq<Node>, origin: Vec3, p: Point, addr: Address, fuel: nat): (r: Option<seq<Node>>)
    requires |kids| == 8 && forall i :: 0 <= i < 8 ==> WellFormed(kids[i])
    ensures r.Some? ==> |r.value| == 8 && forall i :: 0 <= i < 8 ==> WellFormed(r.value[i])
    ensures r.Some? ==> forall i :: 0 <= i < 8 && i != Octant(origin, p.pos) ==> r.value[i] == kids[i]
    decreases fuel, 1
  {
    var o := Octant(origin, p.pos);
    match Insert(kids[o], p, addr + [o], fuel)
    case None => None
    case Some(c) => Some(kids[o := c])
  }

  /** The payloads held in a subtree. */
  function Payloads(t: Node): multiset<Point>
  {
    (if t.data.Some? then multiset{t.data.value} else multiset{}) + PayloadsOf(t.kids)
  }

  function PayloadsOf(ks: seq<Node>): multiset<Point>
  {
    if ks == [] then multiset{} else Payloads(ks[0]) + PayloadsOf(ks[1..])
  }

  /** The `next` link of child `i` of the node at `addr` whose own `next` is
      `next`. */
  function SiblingLink(next: Option<Address>, addr: Address, i: nat): Option<Address>
  {
    if i < 7 then Some(addr + [i + 1]) else next
  }

  /** A `more` link of an internal node at `addr`: the address of one of its
      children. */
  predicate ChildLink(m: Option<Address>, addr: Address)
  {
    m.Some? && |m.value| == |addr| + 1 && m.value[..|addr|] == addr && m.value[|addr|] < 8
  }

  /** The invariant of a subtree at `addr` whose `next` link should be `nx`:
      counters equal payload counts, internal nodes hold no payload and link
      `more` to a child, every extent is positive, and the children have the
      geometry, payload placement and links `Split` and `Insert` give them. */
  predicate Valid(t: Node, addr: Address, nx: Option<Address>)
    decreases t, 0
  {
    && WellFormed(t)
    && t.total == |Payloads(t)|
    && t.next == nx
    && Positive(t.half)
    && (IsLeaf(t) ==> t.more == None)
    && (!IsLeaf(t) ==>
          && t.data == None
          && ChildLink(t.more, addr)
          && KidsValid(t.origin, t.half, t.next, t.kids, addr))
  }

  predicate KidsValid(origin: Vec3, half: Vec3, next: Option<Address>, kids: seq<Node>, addr: Address)
    decreases kids, 2
  {
    |kids| == 8 && forall i :: 0 <= i < 8 ==> ChildValid(origin, half, next, kids[i], i, addr)
  }

  /** Child `i` of a node with the given origin, half-extent and `next` link. */
  predicate ChildValid(origin: Vec3, half: Vec3, next: Option<Address>, c: Node, i: nat, addr: Address)
    decreases c, 1
  {
    && c.origin == ChildOrigin(origin, half, i)
    && c.half == Scale(half, 0.5)
    && (forall q :: q in Payloads(c) ==> Octant(origin, q.pos) == i)
    && Valid(c, addr + [i], SiblingLink(next, addr, i))
  }

  /** Replacing one child by a subtree holding that child's payloads plus
      `extra` adds exactly `extra` to the payloads of the children. */
  lemma {:induction false} PayloadsOfGrow(ks: seq<Node>, o: nat, c: Node, extra: multiset<Point>)
    requires o < |ks|
    requires Payloads(c) == Payloads(ks[o]) + extra
    ensures PayloadsOf(ks[o := c]) == PayloadsOf(ks) + extra
  {
    var updated := ks[o := c];
    if o == 0 {
      assert updated[1..] == ks[1..];
    } else {
      assert updated[1..] == ks[1..][o - 1 := c];
      PayloadsOfGrow(ks[1..], o - 1, c, extra);
    }
  }

  lemma {:induction false} PayloadsOfFind(ks: seq<Node>, q: Point) returns (i: nat)
    requires q in PayloadsOf(ks)
    ensures i < |ks| && q in Payloads(ks[i])
  {
    if q in Payloads(ks[0]) {
      i := 0;
    } else {
      var j := PayloadsOfFind(ks[1..], q);
      i := j + 1;
    }
  }

  lemma {:induction false} PayloadsOfEmptyLeaves(ks: seq<Node>)
    requires forall k :: 0 <= k < |ks| ==> ks[k].data == None && ks[k].kids == []
    ensures PayloadsOf(ks) == multiset{}
  {
    if ks != [] {
      assert PayloadsOf([]) == multiset{};
      PayloadsOfEmptyLeaves(ks[1..]);
    }
  }

  /** The children a split makes are valid, empty leaves. */
  lemma SplitValid(t: Node, addr: Address)
    requires Positive(t.half)
    ensures KidsValid(t.origin, t.half, t.next, Split(t, addr), addr)
    ensures PayloadsOf(Split(t, addr)) == multiset{}
  {
    var kids := Split(t, addr);
    assert PayloadsOf([]) == multiset{};
    forall i | 0 <= i < 8
      ensures ChildValid(t.origin, t.half, t.next, kids[i], i, addr)
    {
      assert Payloads(kids[i]) == multiset{};
    }
    PayloadsOfEmptyLeaves(kids);
  }

  lemma UpdateKid(origin: Vec3, half: Vec3, next: Option<Address>, kids: seq<Node>, addr: Address, o: nat, c: Node)
    requires KidsValid(origin, half, next, kids, addr)
    requires o < 8
    requires ChildValid(origin, half, next, c, o, addr)
    ensures KidsValid(origin, half, next, kids[o := c], addr)
  {
    var updated := kids[o := c];
    forall i | 0 <= i < 8
      ensures ChildValid(origin, half, next, updated[i], i, addr)
    {
      if i != o {
        assert updated[i] == kids[i];
      }
    }
  }

  /** A successful insertion keeps the tree valid and adds exactly the new
      point to its payloads: nothing is lost and nothing duplicated, and the
      root counter equals the number of points inserted. */
  lemma {:induction false} InsertValid(t: Node, p: Point, addr: Address, nx: Option<Address>, fuel: nat)
    requires Valid(t, addr, nx)
    requires Insert(t, p, addr, fuel).Some?
    ensures Valid(Insert(t, p, addr, fuel).value, addr, nx)
    ensures Payloads(Insert(t, p, addr, fuel).value) == Payloads(t) + multiset{p}
    decreases fuel, 2
  {
    if IsLeaf(t) {
      if t.data.None? {
        assert PayloadsOf([]) == multiset{};
        assert Insert(t, p, addr, fuel).value == t.(total := t.total + 1, data := Some(p));
      } else {
        assert PayloadsOf([]) == multiset{};
        assert Payloads(t) == multiset{t.data.value};
        assert Insert(t, p, addr, fuel) == SplitInsert(t.(total := t.total + 1), p, addr, fuel - 1);
        SplitInsertValid(t.(total := t.total + 1), p, addr, nx, fuel - 1);
      }
    } else {
      InsertDescendValid(t, p, addr, nx, fuel);
    }
  }

  /** The case of `InsertValid` where an occupied leaf splits: `t` is the
      leaf after its counter went up to two. */
  lemma {:induction false} SplitInsertValid(t: Node, p: Point, addr: Address, nx: Option<Address>, fuel: nat)
    requires IsLeaf(t) && t.data.Some? && t.total == 2
    requires t.next == nx && Positive(t.half)
    requires SplitInsert(t, p, addr, fuel).Some?
    ensures Valid(SplitInsert(t, p, addr, fuel).value, addr, nx)
    ensures Payloads(SplitInsert(t, p, addr, fuel).value) == multiset{t.data.value, p}
    decreases fuel, 5
  {
    var kids := SplitKids(t, p, addr, fuel).value;
    SplitKidsValid(t, p, addr, fuel);
    var r := t.(data := None, kids := kids, more := Some(addr + [0]));
    assert SplitInsert(t, p, addr, fuel).value == r;
    InternalValid(r, addr, nx);
  }

  /** An internal node is valid when its counter, links and extent are
      right and its children are valid. */
  lemma InternalValid(r: Node, addr: Address, nx: Option<Address>)
    requires |r.kids| == 8 && forall i :: 0 <= i < 8 ==> WellFormed(r.kids[i])
    requires r.total == |PayloadsOf(r.kids)| && r.next == nx && Positive(r.half)
    requires r.data == None && ChildLink(r.more, addr)
    requires KidsValid(r.origin, r.half, r.next, r.kids, addr)
    ensures Valid(r, addr, nx) && Payloads(r) == PayloadsOf(r.kids)
  {
  }

  /** The children a split makes are valid and hold the old payload and the
      new point. */
  lemma {:induction false} SplitKidsValid(t: Node, p: Point, addr: Address, fuel: nat)
    requires Positive(t.half) && t.data.Some?
    requires SplitKids(t, p, addr, fuel).Some?
    ensures KidsValid(t.origin, t.half, t.next, SplitKids(t, p, addr, fuel).value, addr)
    ensures PayloadsOf(SplitKids(t, p, addr, fuel).value) == multiset{t.data.value, p}
    decreases fuel, 4
  {
    var kids0 := Split(t, addr);
    SplitValid(t, addr);
    InsertIntoKidsValid(kids0, t.origin, t.half, t.next, addr, t.data.value, fuel);
    var kids1 := InsertIntoKids(kids0, t.origin, t.data.value, addr, fuel).value;
    InsertIntoKidsValid(kids1, t.origin, t.half, t.next, addr, p, fuel);
  }

  /** The case of `InsertValid` where an internal node hands the point on. */
  lemma {:induction false} InsertDescendValid(t: Node, p: Point, addr: Address, nx: Option<Address>, fuel: nat)
    requires Valid(t, addr, nx)
    requires !IsLeaf(t)
    requires Insert(t, p, addr, fuel).Some?
    ensures Valid(Insert(t, p, addr, fuel).value, addr, nx)
    ensures Payloads(Insert(t, p, addr, fuel).value) == Payloads(t) + multiset{p}
    decreases fuel, 1
  {
    var r := Insert(t, p, addr, fuel).value;
    var t1 := t.(total := t.total + 1);
    InsertIntoKidsValid(t.kids, t.origin, t.half, t.next, addr, p, fuel - 1);
    var kids := InsertIntoKids(t.kids, t.origin, p, addr, fuel - 1).value;
    assert r == t1.(kids := kids, more := Some(addr + [Octant(t.origin, p.pos)]));
    assert Payloads(r) == PayloadsOf(kids);
    assert Payloads(t) == PayloadsOf(t.kids);
  }

  /** Inserting a point into the child of its octant keeps the children
      valid and adds exactly that point to that child and to the children. */
  lemma {:induction false} InsertIntoKidsValid(kids: seq<Node>, origin: Vec3, half: Vec3, next: Option<Address>, addr: Address, p: Point, fuel: nat)
    requires KidsValid(origin, half, next, kids, addr)
    requires forall i :: 0 <= i < 8 ==> WellFormed(kids[i])
    requires InsertIntoKids(kids, origin, p, addr, fuel).Some?
    ensures KidsValid(origin, half, next, InsertIntoKids(kids, origin, p, addr, fuel).value, addr)
    ensures PayloadsOf(InsertIntoKids(kids, origin, p, addr, fuel).value) == PayloadsOf(kids) + multiset{p}
    ensures var o := Octant(origin, p.pos);
            Payloads(InsertIntoKids(kids, origin, p, addr, fuel).value[o]) == Payloads(kids[o]) + multiset{p}
    decreases fuel, 3
  {
    var o := Octant(origin, p.pos);
    assert ChildValid(origin, half, next, kids[o], o, addr);
    var c := Insert(kids[o], p, addr + [o], fuel).value;
    InsertValid(kids[o], p, addr + [o], SiblingLink(next, addr, o), fuel);
    assert ChildValid(origin, half, next, c, o, addr);
    UpdateKid(origin, half, next, kids, addr, o, c);
    PayloadsOfGrow(kids, o, c, multiset{p});
  }

  /** Inserting a point at the position of a point already in the tree never
      finishes, however deep the recursion may go: the two points always
      fall into the same child, which splits again. */
  lemma {:induction false} CoincidentInsertNeverFinishes(t: Node, p: Point, addr: Address, nx: Option<Address>, fuel: nat, q: Point)
    requires Valid(t, addr, nx)
    requires q in Payloads(t) && q.pos == p.pos
    ensures Insert(t, p, addr, fuel) == None
    decreases fuel, 1
  {
    if fuel > 0 {
      if IsLeaf(t) {
        CoincidentLeafNeverFinishes(t, p, addr, nx, fuel, q);
      } else {
        assert q in PayloadsOf(t.kids);
        var i := PayloadsOfFind(t.kids, q);
        assert ChildValid(t.origin, t.half, t.next, t.kids[i], i, addr);
        CoincidentInsertNeverFinishes(t.kids[i], p, addr + [i], SiblingLink(t.next, addr, i), fuel - 1, q);
        InsertIntoKidsFails(t.kids, t.origin, p, addr, fuel - 1);
      }
    } else if IsLeaf(t) {
      assert PayloadsOf([]) == multiset{};
    }
  }

  /** The leaf case of `CoincidentInsertNeverFinishes`: the leaf holds the
      coincident point, splits, and the new point follows it into the same
      child. */
  lemma {:induction false} CoincidentLeafNeverFinishes(t: Node, p: Point, addr: Address, nx: Option<Address>, fuel: nat, q: Point)
    requires Valid(t, addr, nx) && IsLeaf(t)
    requires q in Payloads(t) && q.pos == p.pos
    requires fuel > 0
    ensures Insert(t, p, addr, fuel) == None
    decreases fuel, 0
  {
    assert PayloadsOf([]) == multiset{};
    assert t.data == Some(q);
    var t1 := t.(total := t.total + 1);
    var kids0 := Split(t1, addr);
    SplitValid(t1, addr);
    var o := Octant(t.origin, q.pos);
    InsertIntoEmpty(kids0[o], q, addr + [o], fuel - 1);
    InsertIntoKidsValid(kids0, t.origin, t.half, t.next, addr, q, fuel - 1);
    var kids1 := InsertIntoKids(kids0, t.origin, q, addr, fuel - 1).value;
    assert ChildValid(t.origin, t.half, t.next, kids1[o], o, addr);
    CoincidentInsertNeverFinishes(kids1[o], p, addr + [o], SiblingLink(t.next, addr, o), fuel - 1, q);
    InsertIntoKidsFails(kids1, t.origin, p, addr, fuel - 1);
    assert SplitKids(t1, p, addr, fuel - 1) == None;
  }

  /** Inserting into an empty leaf always succeeds. */
  lemma InsertIntoEmpty(t: Node, p: Point, addr: Address, fuel: nat)
    requires t.kids == [] && t.data == None
    ensures WellFormed(t) && Insert(t, p, addr, fuel).Some?
  {
  }

  /** An insertion into the children fails when the one into the child of
      the point's octant does. */
  lemma InsertIntoKidsFails(kids: seq<Node>, origin: Vec3, p: Point, addr: Address, fuel: nat)
    requires |kids| == 8 && forall i :: 0 <= i < 8 ==> WellFormed(kids[i])
    requires Insert(kids[Octant(origin, p.pos)], p, addr + [Octant(origin, p.pos)], fuel) == None
    ensures InsertIntoKids(kids, origin, p, addr, fuel) == None
  {
  }

  /** The payload copied from a particle. */
  function PointOf(p: Particle): Point
  {
    Point(p.pos, p.dens, p.temp)
  }

  /** Copies each particle's position, density and temperature into a payload
      and inserts the payloads into the tree rooted at `t`, in input order. */
  function Construct(t: Node, parts: seq<Particle>, fuel: nat): (r: Option<Node>)
    requires WellFormed(t)
    ensures r.Some? ==> WellFormed(r.value)
    decreases |parts|
  {
    if parts == [] then Some(t)
    else
      match Insert(t, PointOf(parts[0]), [], fuel)
      case None => None
      case Some(t') => Construct(t', parts[1..], fuel)
  }

  /** A completed construction keeps the root valid, adds one payload per
      particle (a copy of that particle's position, density and temperature)
      and raises the root counter by the number of particles. */
  lemma {:induction false} ConstructValid(t: Node, parts: seq<Particle>, fuel: nat)
    requires Valid(t, [], None)
    requires Construct(t, parts, fuel).Some?
    ensures Valid(Construct(t, parts, fuel).value, [], None)
    ensures Payloads(Construct(t, parts, fuel).value) == Payloads(t) + multiset(Map(parts, PointOf))
    ensures Construct(t, parts, fuel).value.total == t.total + |parts|
    decreases |parts|
  {
    if parts != [] {
      var t' := Insert(t, PointOf(parts[0]), [], fuel).value;
      ConstructStep(t, parts, fuel);
      InsertValid(t, PointOf(parts[0]), [], None, fuel);
      ConstructValid(t', parts[1..], fuel);
      MapCons(parts, PointOf);
    }
  }

  /** One step of `Construct`: the first particle's payload goes in, and
      the rest are inserted into the result. */
  lemma ConstructStep(t: Node, parts: seq<Particle>, fuel: nat)
    requires WellFormed(t) && parts != []
    ensures Insert(t, PointOf(parts[0]), [], fuel).None? ==> Construct(t, parts, fuel) == None
    ensures Insert(t, PointOf(parts[0]), [], fuel).Some? ==>
              Construct(t, parts, fuel) == Construct(Insert(t, PointOf(parts[0]), [], fuel).value, parts[1..], fuel)
  {
  }

  /** Building a tree over particles two of which share a position never
      finishes. */
  lemma {:induction false} ConstructCoincidentNeverFinishes(t: Node, parts: seq<Particle>, fuel: nat, j: nat, k: nat)
    requires Valid(t, [], None)
    requires j < k < |parts| && parts[j].pos == parts[k].pos
    ensures Construct(t, parts, fuel) == None
    decreases |parts|
  {
    var t' := Insert(t, PointOf(parts[0]), [], fuel);
    ConstructStep(t, parts, fuel);
    if t'.Some? {
      InsertValid(t, PointOf(parts[0]), [], None, fuel);
      assert parts[1..][k - 1] == parts[k];
      if j == 0 {
        assert PointOf(parts[0]) in Payloads(t'.value);
        ConstructMeetsPayload(t'.value, parts[1..], fuel, k - 1, PointOf(parts[0]));
      } else {
        assert parts[1..][j - 1] == parts[j];
        ConstructCoincidentNeverFinishes(t'.value, parts[1..], fuel, j - 1, k - 1);
      }
    }
  }

  /** Building on a tree that already holds a payload at the position of one
      of the particles never finishes. */
  lemma {:induction false} ConstructMeetsPayload(t: Node, parts: seq<Particle>, fuel: nat, k: nat, q: Point)
    requires Valid(t, [], None)
    requires q in Payloads(t)
    requires k < |parts| && parts[k].pos == q.pos
    ensures Construct(t, parts, fuel) == None
    decreases |parts|
  {
    var t' := Insert(t, PointOf(parts[0]), [], fuel);
    ConstructStep(t, parts, fuel);
    if k == 0 {
      CoincidentInsertNeverFinishes(t, PointOf(parts[0]), [], None, fuel, q);
    } else if t'.Some? {
      InsertValid(t, PointOf(parts[0]), [], None, fuel);
      ConstructMeetsPayload(t'.value, parts[1..], fuel, k - 1, q);
    }
  }

  /** A point lies in the half-open cell of a node: at or above the low
      face, below the high face. Octant ties go to the high child, so this is
      the region whose points reach the node. */
  predicate InCell(origin: Vec3, half: Vec3, v: Vec3)
  {
    && origin.x - half.x <= v.x < origin.x + half.x
    && origin.y - half.y <= v.y < origin.y + half.y
    && origin.z - half.z <= v.z < origin.z + half.z
  }

  function Pow2(k: nat): (r: real)
    ensures r >= 1.0
  {
    if k == 0 then 1.0 else 2.0 * Pow2(k - 1)
  }

  /** The distance between two coordinates, magnified by 2^k. */
  function Gap(a: real, b: real, k: nat): (r: real)
    ensures r >= 0.0
  {
    (if a >= b then a - b else b - a) * Pow2(k)
  }

  /** Some coordinate of `u` and `v` differs by at least the width of a cell
      `k` halvings below a cell of half-extent `half`. */
  predicate Apart(u: Vec3, v: Vec3, half: Vec3, k: nat)
  {
    || Gap(u.x, v.x, k) >= 2.0 * half.x
    || Gap(u.y, v.y, k) >= 2.0 * half.y
    || Gap(u.z, v.z, k) >= 2.0 * half.z
  }

  /** A point in a cell lies in the cell of the child of its octant. */
  lemma ChildCell(origin: Vec3, half: Vec3, v: Vec3)
    requires InCell(origin, half, v)
    ensures InCell(ChildOrigin(origin, half, Octant(origin, v)), Scale(half, 0.5), v)
  {
  }

  /** One halving of the cell uses up one of the `k` halvings. */
  lemma ApartInChild(u: Vec3, v: Vec3, half: Vec3, k: nat)
    requires k > 0 && Apart(u, v, half, k)
    ensures Apart(u, v, Scale(half, 0.5), k - 1)
  {
    assert Pow2(k) == 2.0 * Pow2(k - 1);
    forall a: real, b: real
      ensures Gap(a, b, k) == 2.0 * Gap(a, b, k - 1)
    {
      var d := if a >= b then a - b else b - a;
      assert d * (2.0 * Pow2(k - 1)) == 2.0 * (d * Pow2(k - 1));
    }
  }

  /** An occupied leaf receiving a point that is apart from its payload by
      `fuel` halvings splits at most `fuel` times: the two points leave each
      other within the depth bound, each into an empty leaf. */
  lemma {:induction false} LeafPairFinishes(t: Node, q: Point, addr: Address, fuel: nat)
    requires IsLeaf(t) && t.data.Some? && t.total >= 1 && Positive(t.half)
    requires InCell(t.origin, t.half, t.data.value.pos) && InCell(t.origin, t.half, q.pos)
    requires Apart(t.data.value.pos, q.pos, t.half, fuel)
    ensures WellFormed(t) && Insert(t, q, addr, fuel).Some?
    decreases fuel
  {
    if fuel == 0 {
      assert false;
    }
    var p := t.data.value;
    var t1 := t.(total := t.total + 1);
    var kids0 := Split(t1, addr);
    var op := Octant(t.origin, p.pos);
    var oq := Octant(t.origin, q.pos);
    InsertIntoEmpty(kids0[op], p, addr + [op], fuel - 1);
    var c := Insert(kids0[op], p, addr + [op], fuel - 1).value;
    var kids1 := kids0[op := c];
    assert InsertIntoKids(kids0, t.origin, p, addr, fuel - 1) == Some(kids1);
    if oq != op {
      InsertIntoEmpty(kids1[oq], q, addr + [oq], fuel - 1);
    } else {
      ChildCell(t.origin, t.half, p.pos);
      ChildCell(t.origin, t.half, q.pos);
      ApartInChild(p.pos, q.pos, t.half, fuel);
      LeafPairFinishes(c, q, addr + [op], fuel - 1);
    }
    assert InsertIntoKids(kids1, t.origin, q, addr, fuel - 1).Some?;
    assert SplitKids(t1, q, addr, fuel - 1).Some?;
  }

  /** 2^k grows past every bound. */
  lemma {:induction false} Pow2Exceeds(k: nat)
    ensures Pow2(k) >= k as real + 1.0
  {
    if k > 0 {
      Pow2Exceeds(k - 1);
    }
  }

  /** Two distinct coordinates are apart after enough halvings of any cell. */
  lemma DistinctCoordinatesApart(a: real, b: real, width: real) returns (k: nat)
    requires a != b && width >= 0.0
    ensures Gap(a, b, k) >= width
  {
    var d := if a >= b then a - b else b - a;
    k := (width / d).Floor as nat + 1;
    Pow2Exceeds(k);
    assert Pow2(k) >= width / d;
    assert d * Pow2(k) >= d * (width / d);
  }

  /** Two particles at distinct positions within the root's cell always fit
      into the tree for a large enough depth bound: only coincident
      positions make construction fail. */
  lemma DistinctPairFinishes(a: Particle, b: Particle)
    requires a.pos != b.pos
    requires InCell(Root.origin, Root.half, a.pos) && InCell(Root.origin, Root.half, b.pos)
    ensures exists fuel: nat :: Construct(Root, [a, b], fuel).Some?
  {
    var k: nat;
    if a.pos.x != b.pos.x {
      k := DistinctCoordinatesApart(a.pos.x, b.pos.x, 2.0 * Root.half.x);
    } else if a.pos.y != b.pos.y {
      k := DistinctCoordinatesApart(a.pos.y, b.pos.y, 2.0 * Root.half.y);
    } else {
      k := DistinctCoordinatesApart(a.pos.z, b.pos.z, 2.0 * Root.half.z);
    }
    var t1 := Insert(Root, PointOf(a), [], k).value;
    LeafPairFinishes(t1, PointOf(b), [], k);
    var t2 := Insert(t1, PointOf(b), [], k).value;
    assert Construct(t1, [b], k) == Construct(t2, [], k) by {
      assert [b][1..] == [];
    }
    assert Construct(Root, [a, b], k) == Construct(t1, [b], k) by {
      assert [a, b][1..] == [b];
    }
  }

  /** Appends the subtree's nodes to `list`, a node before its children and
      the children in slot order. The list is extended, never cleared. */
  function LinkTree(t: Node, list: seq<Node>): (r: seq<Node>)
    ensures r == list + PreOrder(t)
    decreases t, 1
  {
    LinkKids(t, 0, list + [t])
  }

  function LinkKids(t: Node, i: nat, list: seq<Node>): (r: seq<Node>)
    ensures r == list + PreOrderKids(t, i)
    decreases t, 0, |t.kids| - i
  {
    if i >= |t.kids| then list else LinkKids(t, i + 1, LinkTree(t.kids[i], list))
  }

  /** The subtree's nodes in pre-order, without an accumulator. */
  function PreOrder(t: Node): seq<Node>
    decreases t, 1
  {
    [t] + PreOrderKids(t, 0)
  }

  function PreOrderKids(t: Node, i: nat): seq<Node>
    decreases t, 0, |t.kids| - i
  {
    if i >= |t.kids| then [] else PreOrder(t.kids[i]) + PreOrderKids(t, i + 1)
  }

  /** Linking two trees one after the other into an empty list gives both
      pre-orders, the first tree's first. */
  lemma LinkTwoTrees(t1: Node, t2: Node)
    ensures LinkTree(t2, LinkTree(t1, [])) == PreOrder(t1) + PreOrder(t2)
  {
    assert [] + PreOrder(t1) == PreOrder(t1);
  }

  /** The node reached by following `a` from `t`, if any. */
  function At(t: Node, a: Address): Option<Node>
    decreases |a|
  {
    if a == [] then Some(t)
    else if a[0] < |t.kids| then At(t.kids[a[0]], a[1..])
    else None
  }

  function Prepend(i: nat, addrs: seq<Address>): seq<Address>
  {
    Map(addrs, (a: Address) => [i] + a)
  }

  /** The addresses of the subtree's nodes in pre-order. */
  function Addresses(t: Node): seq<Address>
    decreases t, 1
  {
    [[]] + KidAddresses(t, 0)
  }

  function KidAddresses(t: Node, i: nat): seq<Address>
    decreases t, 0, |t.kids| - i
  {
    if i >= |t.kids| then [] else Prepend(i, Addresses(t.kids[i])) + KidAddresses(t, i + 1)
  }

  /** Lexicographic order on addresses: a proper prefix comes first, otherwise
      the first differing child index decides. */
  predicate LexLess(a: Address, b: Address)
    decreases |a|
  {
    |b| > 0 && (|a| == 0 || a[0] < b[0] || (a[0] == b[0] && LexLess(a[1..], b[1..])))
  }

  predicate StrictlyAscending(addrs: seq<Address>)
  {
    forall j, k :: 0 <= j < k < |addrs| ==> LexLess(addrs[j], addrs[k])
  }

  lemma {:induction false} LexLessIrreflexive(a: Address)
    ensures !LexLess(a, a)
    decreases |a|
  {
    if |a| > 0 {
      LexLessIrreflexive(a[1..]);
    }
  }

  lemma {:induction false} PreOrderAt(t: Node)
    ensures |PreOrder(t)| == |Addresses(t)|
    ensures forall k :: 0 <= k < |Addresses(t)| ==> At(t, Addresses(t)[k]) == Some(PreOrder(t)[k])
    decreases t, 1
  {
    PreOrderKidsAt(t, 0);
  }

  lemma {:induction false} PreOrderKidsAt(t: Node, i: nat)
    ensures |PreOrderKids(t, i)| == |KidAddresses(t, i)|
    ensures forall k :: 0 <= k < |KidAddresses(t, i)| ==> At(t, KidAddresses(t, i)[k]) == Some(PreOrderKids(t, i)[k])
    decreases t, 0, |t.kids| - i
  {
    if i < |t.kids| {
      var c := t.kids[i];
      PreOrderAt(c);
      PreOrderKidsAt(t, i + 1);
      var block := Prepend(i, Addresses(c));
      var nodes := PreOrder(c);
      var addrs := KidAddresses(t, i);
      forall k | 0 <= k < |addrs|
        ensures At(t, addrs[k]) == Some(PreOrderKids(t, i)[k])
      {
        if k < |block| {
          var a := Addresses(c)[k];
          assert addrs[k] == [i] + a;
          assert ([i] + a)[1..] == a;
          assert PreOrderKids(t, i)[k] == nodes[k];
        } else {
          assert addrs[k] == KidAddresses(t, i + 1)[k - |block|];
          assert PreOrderKids(t, i)[k] == PreOrderKids(t, i + 1)[k - |nodes|];
        }
      }
    }
  }

  lemma {:induction false} AddressesAscending(t: Node)
    ensures StrictlyAscending(Addresses(t))
    decreases t, 1
  {
    KidAddressesAscending(t, 0);
    var addrs := Addresses(t);
    forall j, k | 0 <= j < k < |addrs|
      ensures LexLess(addrs[j], addrs[k])
    {
      if j > 0 {
        assert addrs[j] == KidAddresses(t, 0)[j - 1];
        assert addrs[k] == KidAddresses(t, 0)[k - 1];
      } else {
        assert addrs[k] == KidAddresses(t, 0)[k - 1];
      }
    }
  }

  lemma {:induction false} KidAddressesAscending(t: Node, i: nat)
    ensures StrictlyAscending(KidAddresses(t, i))
    ensures forall k :: 0 <= k < |KidAddresses(t, i)| ==>
              |KidAddresses(t, i)[k]| > 0 && i <= KidAddresses(t, i)[k][0] < |t.kids|
    decreases t, 0, |t.kids| - i
  {
    if i < |t.kids| {
      var c := t.kids[i];
      AddressesAscending(c);
      KidAddressesAscending(t, i + 1);
      var inner := Addresses(c);
      var block := Prepend(i, inner);
      var rest := KidAddresses(t, i + 1);
      var addrs := KidAddresses(t, i);
      assert addrs == block + rest;
      forall j, k | 0 <= j < k < |addrs|
        ensures LexLess(addrs[j], addrs[k])
      {
        if k < |block| {
          assert addrs[j] == [i] + inner[j] && addrs[k] == [i] + inner[k];
          assert ([i] + inner[j])[1..] == inner[j];
          assert ([i] + inner[k])[1..] == inner[k];
        } else if j < |block| {
          assert addrs[j] == [i] + inner[j];
          assert addrs[k] == rest[k - |block|];
        } else {
          assert addrs[j] == rest[j - |block|];
          assert addrs[k] == rest[k - |block|];
        }
      }
      forall k | 0 <= k < |addrs|
        ensures |addrs[k]| > 0 && i <= addrs[k][0] < |t.kids|
      {
        if k < |block| {
          assert addrs[k] == [i] + inner[k];
        } else {
          assert addrs[k] == rest[k - |block|];
        }
      }
    }
  }

  /** Every address that leads to a node is listed. */
  lemma {:induction false} AddressesComplete(t: Node, a: Address)
    requires At(t, a).Some?
    ensures a in Addresses(t)
    decreases |a|
  {
    if a != [] {
      var i := a[0];
      var c := t.kids[i];
      AddressesComplete(c, a[1..]);
      var k :| 0 <= k < |Addresses(c)| && Addresses(c)[k] == a[1..];
      assert a == [i] + a[1..];
      assert Prepend(i, Addresses(c))[k] == a;
      KidAddressesContain(t, 0, i, a);
    }
  }

  lemma {:induction false} KidAddressesContain(t: Node, j: nat, i: nat, a: Address)
    requires j <= i < |t.kids|
    requires a in Prepend(i, Addresses(t.kids[i]))
    ensures a in KidAddresses(t, j)
    decreases i - j
  {
    if j < i {
      KidAddressesContain(t, j + 1, i, a);
    }
  }

  /** LinkTree appends every node of the subtree exactly once: the appended
      nodes are the nodes found at the subtree's addresses, every address of
      a node is among them, and they come in strictly ascending lexicographic
      order of address, which is pre-order with children in slot order. The
      list's earlier contents are kept. */
  lemma LinkTreeVisitsEachNodeOnce(t: Node, list: seq<Node>)
    ensures |LinkTree(t, list)| == |list| + |Addresses(t)|
    ensures LinkTree(t, list)[..|list|] == list
    ensures forall k :: 0 <= k < |Addresses(t)| ==> At(t, Addresses(t)[k]) == Some(LinkTree(t, list)[|list| + k])
    ensures StrictlyAscending(Addresses(t))
    ensures forall a :: At(t, a).Some? ==> a in Addresses(t)
  {
    PreOrderAt(t);
    AddressesAscending(t);
    forall a | At(t, a).Some?
      ensures a in Addresses(t)
    {
      AddressesComplete(t, a);
    }
  }

  /** Accumulated column density (sigma) and optical depth (tau). */
  datatype Column = Column(sigma: real, tau: real)

  const NoColumn: Column := Column(0.0, 0.0)

  function Plus(a: Column, b: Column): Column
  {
    Column(a.sigma + b.sigma, a.tau + b.tau)
  }

  /** The Rosseland-mean opacity lookup of the opacity table, by density and
      temperature; the table itself is not part of this model. */
  type Opacity = (real, real) -> real

  /** The particle's x and y lie strictly inside the cell's x-y rectangle;
      z plays no part. */
  predicate Intersects(t: Node, pos: Vec3)
  {
    && pos.x > t.origin.x - t.half.x && pos.x < t.origin.x + t.half.x
    && pos.y > t.origin.y - t.half.y && pos.y < t.origin.y + t.half.y
  }

  /** Adds to `acc` the contributions of the leaves in the particle's column:
      a leaf whose payload lies below the particle adds nothing; otherwise the
      leaf adds density times the cell height (twice its z half-extent, in
      centimetres) to sigma, and that times the opacity to tau. */
  function Traverse(t: Node, pos: Vec3, acc: Column, kappar: Opacity, auToCm: real): (r: Column)
    ensures Nested(t) ==> r == Plus(acc, FlatColumn(PreOrder(t), pos, kappar, auToCm))
    decreases t, 1
  {
    NodeFlatSplit(t, pos, kappar, auToCm);
    if !Intersects(t, pos) then
      OutsideKeepsAcc(t, pos, acc, kappar, auToCm);
      acc
    else if IsLeaf(t) then
      assert PreOrderKids(t, 0) == [];
      PlusIdentity(Contribution(t, pos, kappar, auToCm));
      PlusIdentity(acc);
      if t.data.None? then acc
      else if t.data.value.pos.z < pos.z then acc
      else Plus(acc, LeafColumn(t, kappar, auToCm))
    else
      PlusIdentity(FlatColumn(PreOrderKids(t, 0), pos, kappar, auToCm));
      TraverseKids(t, 0, pos, acc, kappar, auToCm)
  }

  /** What a leaf holding a payload adds: density times the cell height (twice
      its z half-extent, in centimetres) to sigma, and that times the opacity
      at the payload's density and temperature to tau. */
  function LeafColumn(t: Node, kappar: Opacity, auToCm: real): Column
    requires t.data.Some?
  {
    var dens := t.data.value.dens;
    var height := t.half.z * 2.0 * auToCm;
    Column(dens * height, dens * kappar(dens, t.data.value.temp) * height)
  }

  function TraverseKids(t: Node, i: nat, pos: Vec3, acc: Column, kappar: Opacity, auToCm: real): (r: Column)
    ensures Nested(t) ==> r == Plus(acc, FlatColumn(PreOrderKids(t, i), pos, kappar, auToCm))
    decreases t, 0, |t.kids| - i
  {
    if i >= |t.kids| then
      PlusIdentity(acc);
      acc
    else
      var mid := Traverse(t.kids[i], pos, acc, kappar, auToCm);
      FlatColumnAppend(PreOrder(t.kids[i]), PreOrderKids(t, i + 1), pos, kappar, auToCm);
      PlusAssociative(acc, FlatColumn(PreOrder(t.kids[i]), pos, kappar, auToCm),
                      FlatColumn(PreOrderKids(t, i + 1), pos, kappar, auToCm));
      TraverseKids(t, i + 1, pos, mid, kappar, auToCm)
  }

  /** What one node contributes to the column above `pos`, judged on its own:
      only a leaf holding a payload, whose rectangle contains the particle's
      x-y and whose payload is not below the particle, contributes. */
  function Contribution(n: Node, pos: Vec3, kappar: Opacity, auToCm: real): Column
  {
    if IsLeaf(n) && n.data.Some? && Intersects(n, pos) && n.data.value.pos.z >= pos.z
    then LeafColumn(n, kappar, auToCm)
    else NoColumn
  }

  /** The contributions of a list of nodes, added up. */
  function FlatColumn(nodes: seq<Node>, pos: Vec3, kappar: Opacity, auToCm: real): Column
  {
    if nodes == [] then NoColumn
    else Plus(Contribution(nodes[0], pos, kappar, auToCm), FlatColumn(nodes[1..], pos, kappar, auToCm))
  }

  lemma FlatColumnSingleton(n: Node, pos: Vec3, kappar: Opacity, auToCm: real)
    ensures FlatColumn([n], pos, kappar, auToCm) == Contribution(n, pos, kappar, auToCm)
  {
    assert [n][1..] == [];
    PlusIdentity(Contribution(n, pos, kappar, auToCm));
  }

  lemma {:induction false} FlatColumnAppend(a: seq<Node>, b: seq<Node>, pos: Vec3, kappar: Opacity, auToCm: real)
    ensures FlatColumn(a + b, pos, kappar, auToCm)
         == Plus(FlatColumn(a, pos, kappar, auToCm), FlatColumn(b, pos, kappar, auToCm))
  {
    if a == [] {
      assert a + b == b;
    } else {
      assert (a + b)[0] == a[0];
      assert (a + b)[1..] == a[1..] + b;
      FlatColumnAppend(a[1..], b, pos, kappar, auToCm);
    }
  }

  /** The geometric part of `Valid`: every child is the octant its index
      names, at half its parent's extent, and extents are not negative. */
  predicate Nested(t: Node)
  {
    && t.half.x >= 0.0 && t.half.y >= 0.0
    && forall i :: 0 <= i < |t.kids| ==>
         && t.kids[i].origin == ChildOrigin(t.origin, t.half, i)
         && t.kids[i].half == Scale(t.half, 0.5)
         && Nested(t.kids[i])
  }

  lemma {:induction false} ValidNested(t: Node, addr: Address, nx: Option<Address>)
    requires Valid(t, addr, nx)
    ensures Nested(t)
    decreases t
  {
    forall i | 0 <= i < |t.kids|
      ensures t.kids[i].origin == ChildOrigin(t.origin, t.half, i)
      ensures t.kids[i].half == Scale(t.half, 0.5)
      ensures Nested(t.kids[i])
    {
      assert ChildValid(t.origin, t.half, t.next, t.kids[i], i, addr);
      ValidNested(t.kids[i], addr + [i], SiblingLink(t.next, addr, i));
    }
  }

  /** A child's rectangle lies inside its parent's, so a particle outside the
      parent's rectangle is outside every child's. */
  lemma ChildOutside(t: Node, i: nat, pos: Vec3)
    requires Nested(t)
    requires i < |t.kids|
    requires !Intersects(t, pos)
    ensures Nested(t.kids[i]) && !Intersects(t.kids[i], pos)
  {
    var c := t.kids[i];
    assert c.origin == ChildOrigin(t.origin, t.half, i) && c.half == Scale(t.half, 0.5);
  }

  lemma {:induction false} OutsideContributesNothing(t: Node, pos: Vec3, kappar: Opacity, auToCm: real)
    requires Nested(t)
    requires !Intersects(t, pos)
    ensures FlatColumn(PreOrder(t), pos, kappar, auToCm) == NoColumn
    decreases t, 1
  {
    OutsideKidsContributeNothing(t, 0, pos, kappar, auToCm);
    FlatColumnAppend([t], PreOrderKids(t, 0), pos, kappar, auToCm);
    assert Contribution(t, pos, kappar, auToCm) == NoColumn;
    FlatColumnSingleton(t, pos, kappar, auToCm);
    PlusIdentity(NoColumn);
  }

  lemma {:induction false} OutsideKidsContributeNothing(t: Node, i: nat, pos: Vec3, kappar: Opacity, auToCm: real)
    requires Nested(t)
    requires !Intersects(t, pos)
    ensures FlatColumn(PreOrderKids(t, i), pos, kappar, auToCm) == NoColumn
    decreases t, 0, |t.kids| - i
  {
    if i < |t.kids| {
      ChildOutside(t, i, pos);
      OutsideContributesNothing(t.kids[i], pos, kappar, auToCm);
      OutsideKidsContributeNothing(t, i + 1, pos, kappar, auToCm);
      FlatColumnAppend(PreOrder(t.kids[i]), PreOrderKids(t, i + 1), pos, kappar, auToCm);
      assert PreOrderKids(t, i) == PreOrder(t.kids[i]) + PreOrderKids(t, i + 1);
      PlusIdentity(NoColumn);
    } else {
      assert PreOrderKids(t, i) == [];
    }
  }

  /** Column sums form a monoid with `NoColumn` as identity;
      stated apart so the tree proofs below need no arithmetic. */
  lemma PlusIdentity(c: Column)
    ensures Plus(NoColumn, c) == c && Plus(c, NoColumn) == c
  {
  }

  lemma PlusAssociative(a: Column, b: Column, c: Column)
    ensures Plus(Plus(a, b), c) == Plus(a, Plus(b, c))
  {
  }

  /** A node's pre-order column is its own contribution plus its
      children's. */
  lemma NodeFlatSplit(t: Node, pos: Vec3, kappar: Opacity, auToCm: real)
    ensures FlatColumn(PreOrder(t), pos, kappar, auToCm)
         == Plus(Contribution(t, pos, kappar, auToCm), FlatColumn(PreOrderKids(t, 0), pos, kappar, auToCm))
  {
    FlatColumnAppend([t], PreOrderKids(t, 0), pos, kappar, auToCm);
    FlatColumnSingleton(t, pos, kappar, auToCm);
  }

  /** The walk's early return at a cell outside the particle's column skips
      nothing that would have counted. */
  lemma OutsideKeepsAcc(t: Node, pos: Vec3, acc: Column, kappar: Opacity, auToCm: real)
    ensures Nested(t) && !Intersects(t, pos) ==> Plus(acc, FlatColumn(PreOrder(t), pos, kappar, auToCm)) == acc
  {
    if Nested(t) && !Intersects(t, pos) {
      OutsideContributesNothing(t, pos, kappar, auToCm);
      PlusIdentity(acc);
    }
  }

  /** The column above `pos`: the contributions of the nodes LinkTree lists. */
  function ColumnAbove(t: Node, pos: Vec3, kappar: Opacity, auToCm: real): Column
  {
    FlatColumn(LinkTree(t, []), pos, kappar, auToCm)
  }

  /** For each particle, starts sigma and tau at zero, walks the tree from the
      root, and stores the two sums in the particle's RealSigma and RealTau;
      every other field is left as it was. */
  function Walk(t: Node, parts: seq<Particle>, kappar: Opacity, auToCm: real): (r: seq<Particle>)
    ensures |r| == |parts|
    ensures forall i :: 0 <= i < |parts| ==>
              r[i].(realSigma := parts[i].realSigma, realTau := parts[i].realTau) == parts[i]
    ensures forall i :: 0 <= i < |parts| ==>
              Column(r[i].realSigma, r[i].realTau) == Traverse(t, parts[i].pos, NoColumn, kappar, auToCm)
  {
    Map(parts, (p: Particle) =>
      var c := Traverse(t, p.pos, NoColumn, kappar, auToCm);
      p.(realSigma := c.sigma, realTau := c.tau))
  }

  /** In a valid tree, the walk stores for each particle the column above it
      as the flat sum over the linked node list: only leaves whose rectangle
      strictly contains the particle's x-y and whose payload is not below it
      count, each by density times cell height (and opacity for tau). */
  lemma WalkStoresColumnAbove(t: Node, addr: Address, nx: Option<Address>, parts: seq<Particle>, kappar: Opacity, auToCm: real)
    requires Valid(t, addr, nx)
    ensures forall i :: 0 <= i < |parts| ==>
              Column(Walk(t, parts, kappar, auToCm)[i].realSigma, Walk(t, parts, kappar, auToCm)[i].realTau)
              == ColumnAbove(t, parts[i].pos, kappar, auToCm)
  {
    assert LinkTree(t, []) == PreOrder(t);
    ValidNested(t, addr, nx);
    forall i | 0 <= i < |parts|
      ensures Traverse(t, parts[i].pos, NoColumn, kappar, auToCm) == ColumnAbove(t, parts[i].pos, kappar, auToCm)
    {
      PlusIdentity(FlatColumn(PreOrder(t), parts[i].pos, kappar, auToCm));
    }
  }

  /** The opacity lookup never answers a negative value. */
  ghost predicate NonNegativeOpacity(kappar: Opacity)
  {
    forall dens: real, temp: real :: kappar(dens, temp) >= 0.0
  }

  /** Every cell has a non-negative height and every payload a non-negative
      density. */
  predicate NonNegativeCells(t: Node)
  {
    && t.half.z >= 0.0
    && (t.data.Some? ==> t.data.value.dens >= 0.0)
    && forall i :: 0 <= i < |t.kids| ==> NonNegativeCells(t.kids[i])
  }

  lemma {:induction false} PayloadsOfMember(ks: seq<Node>, i: nat)
    requires i < |ks|
    ensures Payloads(ks[i]) <= PayloadsOf(ks)
  {
    if i > 0 {
      PayloadsOfMember(ks[1..], i - 1);
      assert ks[1..][i - 1] == ks[i];
    }
  }

  /** In a valid tree whose payloads all have non-negative density, every
      cell is non-negative in the sense above. */
  lemma {:induction false} ValidNonNegativeCells(t: Node, addr: Address, nx: Option<Address>)
    requires Valid(t, addr, nx)
    requires forall q :: q in Payloads(t) ==> q.dens >= 0.0
    ensures NonNegativeCells(t)
    decreases t
  {
    if t.data.Some? {
      assert t.data.value in Payloads(t);
    }
    forall i | 0 <= i < |t.kids|
      ensures NonNegativeCells(t.kids[i])
    {
      assert ChildValid(t.origin, t.half, t.next, t.kids[i], i, addr);
      PayloadsOfMember(t.kids, i);
      assert Payloads(t) == PayloadsOf(t.kids);
      ValidNonNegativeCells(t.kids[i], addr + [i], SiblingLink(t.next, addr, i));
    }
  }

  lemma LeafColumnNonNegative(t: Node, kappar: Opacity, auToCm: real)
    requires t.data.Some? && t.data.value.dens >= 0.0 && t.half.z >= 0.0
    requires NonNegativeOpacity(kappar) && auToCm >= 0.0
    ensures LeafColumn(t, kappar, auToCm).sigma >= 0.0
    ensures LeafColumn(t, kappar, auToCm).tau >= 0.0
  {
    var dens := t.data.value.dens;
    var height := t.half.z * 2.0 * auToCm;
    var k := kappar(dens, t.data.value.temp);
    assert height >= 0.0;
    assert dens * height >= 0.0;
    assert dens * k >= 0.0;
    assert dens * k * height >= 0.0;
  }

  /** With non-negative densities, heights and opacities, walking a subtree
      never decreases either sum. */
  lemma {:induction false} TraverseGrows(t: Node, pos: Vec3, acc: Column, kappar: Opacity, auToCm: real)
    requires NonNegativeCells(t) && NonNegativeOpacity(kappar) && auToCm >= 0.0
    ensures Traverse(t, pos, acc, kappar, auToCm).sigma >= acc.sigma
    ensures Traverse(t, pos, acc, kappar, auToCm).tau >= acc.tau
    decreases t, 1
  {
    if Intersects(t, pos) {
      if IsLeaf(t) {
        if t.data.Some? {
          LeafColumnNonNegative(t, kappar, auToCm);
        }
      } else {
        TraverseKidsGrows(t, 0, pos, acc, kappar, auToCm);
      }
    }
  }

  lemma {:induction false} TraverseKidsGrows(t: Node, i: nat, pos: Vec3, acc: Column, kappar: Opacity, auToCm: real)
    requires NonNegativeCells(t) && NonNegativeOpacity(kappar) && auToCm >= 0.0
    ensures TraverseKids(t, i, pos, acc, kappar, auToCm).sigma >= acc.sigma
    ensures TraverseKids(t, i, pos, acc, kappar, auToCm).tau >= acc.tau
    decreases t, 0, |t.kids| - i
  {
    if i < |t.kids| {
      var mid := Traverse(t.kids[i], pos, acc, kappar, auToCm);
      TraverseGrows(t.kids[i], pos, acc, kappar, auToCm);
      TraverseKidsGrows(t, i + 1, pos, mid, kappar, auToCm);
    }
  }

  /** In a valid tree whose payloads have non-negative density, and with a
      non-negative opacity, the walk stores non-negative sigma and tau. */
  lemma WalkNonNegative(t: Node, addr: Address, nx: Option<Address>, parts: seq<Particle>, kappar: Opacity, auToCm: real)
    requires Valid(t, addr, nx)
    requires forall q :: q in Payloads(t) ==> q.dens >= 0.0
    requires NonNegativeOpacity(kappar) && auToCm >= 0.0
    ensures forall i :: 0 <= i < |parts| ==>
              Walk(t, parts, kappar, auToCm)[i].realSigma >= 0.0 && Walk(t, parts, kappar, auToCm)[i].realTau >= 0.0
  {
    ValidNonNegativeCells(t, addr, nx);
    forall i | 0 <= i < |parts|
      ensures Traverse(t, parts[i].pos, NoColumn, kappar, auToCm).sigma >= 0.0
      ensures Traverse(t, parts[i].pos, NoColumn, kappar, auToCm).tau >= 0.0
    {
      TraverseGrows(t, parts[i].pos, NoColumn, kappar, auToCm);
    }
  }
}
