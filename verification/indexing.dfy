/** The flat vertex numbering of a polar blockMeshDict.

    A vertex is named by its key (axial layer, angular index, radial index).
    The vertex list is laid out layer-major, then angle, then radius, and
    `Idx` maps a key to its position in that list. A wedge keeps a
    duplicate angular slot at the far symmetry plane (n_theta + 1 slots);
    a full revolution has n_theta slots and wraps its angular neighbour. */
module Indexing {
  import opened Arith

  datatype Mode = Wedge | FullRevolution

  /** The discretisation the index arithmetic depends on. */
  datatype Grid = Grid(mode: Mode, nTheta: nat, nR: nat)

  /** A vertex key: axial layer, angular index, radial index. */
  datatype Key = Key(layer: nat, angle: nat, radial: nat)

  /** Axial cells; blocks and patches only ever connect layers 0 and 1. */
  const NAxial: nat := 1

  /** The angular step divides by n_theta, so there is at least one division. */
  predicate Valid(g: Grid) {
    g.nTheta >= 1
  }

  /** The loop bound of the full-revolution vertex loop. Both branches of the
      full-revolution script's conditional give n_theta, so no duplicate slot at 360 degrees
      is ever produced whatever the span. */
  function ThetaMaxIndex(thetaDeg: real, nTheta: nat): (m: nat)
    ensures m == nTheta
  {
    if thetaDeg < 360.0 then nTheta else nTheta
  }

  function AngularSlots(g: Grid): nat {
    match g.mode
    case Wedge => g.nTheta + 1
    case FullRevolution => g.nTheta
  }

  function RadialSlots(g: Grid): nat {
    g.nR + 1
  }

  /** Number of vertices on one axial layer. */
  function LayerStride(g: Grid): nat {
    AngularSlots(g) * RadialSlots(g)
  }

  function VertexCount(g: Grid): nat {
    (NAxial + 1) * LayerStride(g)
  }

  predicate InRange(g: Grid, k: Key) {
    k.layer <= NAxial && k.angle < AngularSlots(g) && k.radial < RadialSlots(g)
  }

  /** The scripts' index helper `idx(z, t, r)`. */
  function Idx(g: Grid, z: nat, t: nat, r: nat): nat {
    z * LayerStride(g) + t * RadialSlots(g) + r
  }

  /** Inverse of `Idx` on the vertex range. */
  function Decode(g: Grid, i: nat): Key
    requires Valid(g)
  {
    var rem := i % LayerStride(g);
    Key(i / LayerStride(g), rem / RadialSlots(g), rem % RadialSlots(g))
  }

  /** The angular index across the cell from `t`: one step on in a wedge,
      one step on modulo n_theta in a full revolution. */
  function NextAngle(g: Grid, t: nat): (n: nat)
    requires Valid(g)
    ensures t < g.nTheta ==> n < AngularSlots(g)
    ensures t + 1 < g.nTheta ==> n == t + 1
    ensures g.mode == FullRevolution && t + 1 == g.nTheta ==> n == 0
    ensures g.mode == Wedge && t + 1 == g.nTheta ==> n == g.nTheta
  {
    match g.mode
    case Wedge => t + 1
    case FullRevolution => (t + 1) % g.nTheta
  }

  /** `Idx` sends every key in range into the vertex range, and `Decode`
      recovers the key. */
  lemma DecodeIdx(g: Grid, z: nat, t: nat, r: nat)
    requires Valid(g) && InRange(g, Key(z, t, r))
    ensures Idx(g, z, t, r) < VertexCount(g)
    ensures Decode(g, Idx(g, z, t, r)) == Key(z, t, r)
  {
    var s, w := LayerStride(g), t * RadialSlots(g) + r;
    RowMajorBound(t, r, AngularSlots(g), RadialSlots(g));
    assert 0 <= w < s;
    RowMajorBound(z, w, NAxial + 1, s);
    DivModUnique(Idx(g, z, t, r), s, z, w);
    DivModUnique(w, RadialSlots(g), t, r);
  }

  /** Every position of the vertex range decodes to a key in range that
      `Idx` sends back to that position. */
  lemma IdxDecode(g: Grid, i: nat)
    requires Valid(g) && i < VertexCount(g)
    ensures InRange(g, Decode(g, i))
    ensures Idx(g, Decode(g, i).layer, Decode(g, i).angle, Decode(g, i).radial) == i
  {
    var s, rr := LayerStride(g), RadialSlots(g);
    var k := Decode(g, i);
    QuotientBound(i, NAxial + 1, s);
    QuotientBound(i % s, AngularSlots(g), rr);
    assert i == (i / s) * s + i % s;
    assert i % s == ((i % s) / rr) * rr + (i % s) % rr;
  }

  /** Distinct keys in range get distinct indices. */
  lemma IdxInjective(g: Grid, a: Key, b: Key)
    requires Valid(g) && InRange(g, a) && InRange(g, b)
    requires Idx(g, a.layer, a.angle, a.radial) == Idx(g, b.layer, b.angle, b.radial)
    ensures a == b
  {
    DecodeIdx(g, a.layer, a.angle, a.radial);
    DecodeIdx(g, b.layer, b.angle, b.radial);
  }

  /** `Idx` is a bijection from the keys in range onto [0, VertexCount). */
  lemma IdxBijective(g: Grid)
    requires Valid(g)
    ensures forall z: nat, t: nat, r: nat :: InRange(g, Key(z, t, r)) ==> Idx(g, z, t, r) < VertexCount(g)
    ensures forall i: nat :: i < VertexCount(g) ==>
              InRange(g, Decode(g, i)) && Idx(g, Decode(g, i).layer, Decode(g, i).angle, Decode(g, i).radial) == i
    ensures forall z1: nat, t1: nat, r1: nat, z2: nat, t2: nat, r2: nat ::
              (InRange(g, Key(z1, t1, r1)) && InRange(g, Key(z2, t2, r2)) &&
               Idx(g, z1, t1, r1) == Idx(g, z2, t2, r2)) ==> z1 == z2 && t1 == t2 && r1 == r2
  {
    forall z: nat, t: nat, r: nat | InRange(g, Key(z, t, r))
      ensures Idx(g, z, t, r) < VertexCount(g)
    {
      DecodeIdx(g, z, t, r);
    }
    forall i: nat | i < VertexCount(g)
      ensures InRange(g, Decode(g, i)) && Idx(g, Decode(g, i).layer, Decode(g, i).angle, Decode(g, i).radial) == i
    {
      IdxDecode(g, i);
    }
    forall z1: nat, t1: nat, r1: nat, z2: nat, t2: nat, r2: nat |
      InRange(g, Key(z1, t1, r1)) && InRange(g, Key(z2, t2, r2)) && Idx(g, z1, t1, r1) == Idx(g, z2, t2, r2)
      ensures z1 == z2 && t1 == t2 && r1 == r2
    {
      IdxInjective(g, Key(z1, t1, r1), Key(z2, t2, r2));
    }
  }

  /** The angular index one step back, wrapping at zero. */
  function PrevAngle(g: Grid, u: nat): nat
    requires Valid(g)
  {
    if u == 0 then g.nTheta - 1 else u - 1
  }

  /** In a full revolution the angular step is a cyclic permutation of
      [0, n_theta): every angle has exactly one predecessor, so the last
      angular column of cells closes onto the first. */
  lemma NextAngleCyclic(g: Grid)
    requires Valid(g) && g.mode == FullRevolution
    ensures forall t: nat :: t < g.nTheta ==> NextAngle(g, t) < g.nTheta
    ensures forall u: nat :: u < g.nTheta ==> PrevAngle(g, u) < g.nTheta && NextAngle(g, PrevAngle(g, u)) == u
    ensures forall t1: nat, t2: nat :: t1 < g.nTheta && t2 < g.nTheta && NextAngle(g, t1) == NextAngle(g, t2) ==> t1 == t2
  {
    forall u: nat | u < g.nTheta
      ensures PrevAngle(g, u) < g.nTheta && NextAngle(g, PrevAngle(g, u)) == u
    {
    }
    forall t1: nat, t2: nat | t1 < g.nTheta && t2 < g.nTheta && NextAngle(g, t1) == NextAngle(g, t2)
      ensures t1 == t2
    {
    }
  }
}
