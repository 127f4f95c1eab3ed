/** The vertex list: axial layers outermost, angular slots in the middle,
    radii innermost, exactly the order `Idx` assumes. A vertex is kept in
    cylindrical form (radius, angle, height); the Cartesian x = radius *
    cos(angle), y = radius * sin(angle) is left to the caller. */
module Vertices {
  import opened Indexing

  datatype Vertex = Vertex(key: Key, radius: real, angle: real, height: real)

  /** Where the vertices go: the radius sequence, the angular step and the
      axial origin and step. */
  datatype Placement = Placement(radii: seq<real>, dTheta: real, zMin: real, dz: real)

  predicate Fits(g: Grid, p: Placement) {
    Valid(g) && |p.radii| == RadialSlots(g)
  }

  /** The vertex with key (z, t, r): radius radii[r], angle t * dTheta,
      height zMin + z * dz. */
  function VertexOf(p: Placement, z: nat, t: nat, r: nat): Vertex
    requires r < |p.radii|
  {
    Vertex(Key(z, t, r), p.radii[r], t as real * p.dTheta, p.zMin + z as real * p.dz)
  }

  /** The vertex the list holds at position i, read through `Decode`. */
  function VertexAt(g: Grid, p: Placement, i: nat): Vertex
    requires Fits(g, p)
  {
    var k := Decode(g, i);
    VertexOf(p, k.layer, k.angle, k.radial)
  }

  /** Every position so far holds the vertex whose key `Idx` maps there. */
  ghost predicate LaidOut(g: Grid, p: Placement, verts: seq<Vertex>)
    requires Fits(g, p)
  {
    forall i :: 0 <= i < |verts| ==> verts[i] == VertexAt(g, p, i)
  }

  /** The radial loop for layer z and angular slot t. */
  method AppendRay(g: Grid, p: Placement, z: nat, t: nat, verts0: seq<Vertex>) returns (verts: seq<Vertex>)
    requires Fits(g, p) && z <= NAxial && t < AngularSlots(g)
    requires |verts0| == Idx(g, z, t, 0) && LaidOut(g, p, verts0)
    ensures |verts| == Idx(g, z, t, 0) + RadialSlots(g) && LaidOut(g, p, verts)
  {
    verts := verts0;
    var r := 0;
    while r < |p.radii|
      invariant r <= |p.radii|
      invariant |verts| == Idx(g, z, t, 0) + r
      invariant LaidOut(g, p, verts)
    {
      DecodeIdx(g, z, t, r);
      verts := verts + [VertexOf(p, z, t, r)];
      r := r + 1;
    }
  }

  /** The angular loop for layer z, running over `slots` angular slots. */
  method AppendLayer(g: Grid, p: Placement, z: nat, slots: nat, verts0: seq<Vertex>) returns (verts: seq<Vertex>)
    requires Fits(g, p) && z <= NAxial && slots == AngularSlots(g)
    requires |verts0| == z * LayerStride(g) && LaidOut(g, p, verts0)
    ensures |verts| == (z + 1) * LayerStride(g) && LaidOut(g, p, verts)
  {
    verts := verts0;
    var t := 0;
    while t < slots
      invariant t <= slots
      invariant |verts| == Idx(g, z, t, 0)
      invariant LaidOut(g, p, verts)
    {
      verts := AppendRay(g, p, z, t, verts);
      assert Idx(g, z, t + 1, 0) == Idx(g, z, t, 0) + RadialSlots(g);
      t := t + 1;
    }
    assert (z + 1) * LayerStride(g) == z * LayerStride(g) + slots * RadialSlots(g);
  }

  /** The three nested vertex loops. In a wedge the angular loop runs over
      n_theta + 1 slots; in a full revolution it runs to `ThetaMaxIndex`,
      which is n_theta, so the slot at 360 degrees is not duplicated. */
  method GenerateVertices(g: Grid, p: Placement, thetaDeg: real) returns (verts: seq<Vertex>)
    requires Fits(g, p)
    ensures |verts| == VertexCount(g)
    ensures forall i :: 0 <= i < |verts| ==> verts[i].key == Decode(g, i)
    ensures forall z: nat, t: nat, r: nat :: InRange(g, Key(z, t, r)) ==>
              Idx(g, z, t, r) < |verts| && verts[Idx(g, z, t, r)] == VertexOf(p, z, t, r)
  {
    verts := [];
    var z := 0;
    while z < NAxial + 1
      invariant z <= NAxial + 1
      invariant |verts| == z * LayerStride(g)
      invariant LaidOut(g, p, verts)
    {
      var slots := if g.mode == Wedge then g.nTheta + 1 else ThetaMaxIndex(thetaDeg, g.nTheta);
      verts := AppendLayer(g, p, z, slots, verts);
      z := z + 1;
    }
    forall z: nat, t: nat, r: nat | InRange(g, Key(z, t, r))
      ensures Idx(g, z, t, r) < |verts| && verts[Idx(g, z, t, r)] == VertexOf(p, z, t, r)
    {
      var i := Idx(g, z, t, r);
      DecodeIdx(g, z, t, r);
      assert verts[i] == VertexAt(g, p, i);
    }
  }
}
