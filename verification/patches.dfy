/** Boundary patches: quadrilateral faces as 4-tuples of vertex indices. */
module Patches {
  import opened Arith
  import opened Indexing
  import opened Blocks

  /** A face in the plane of angular slot t, between radii r and r + 1,
      spanning layers 0 and 1 (symmetryX at t = 0, symmetryY at t = n_theta). */
  function SideFace(g: Grid, t: nat, r: nat): seq<nat> {
    [Idx(g, 0, t, r), Idx(g, 0, t, r + 1), Idx(g, 1, t, r + 1), Idx(g, 1, t, r)]
  }

  /** A face on axial layer z covering cell (t, r) (back at z = 0, front at z = 1). */
  function CapFace(g: Grid, z: nat, t: nat, r: nat): seq<nat>
    requires Valid(g)
  {
    var n := NextAngle(g, t);
    [Idx(g, z, t, r), Idx(g, z, n, r), Idx(g, z, n, r + 1), Idx(g, z, t, r + 1)]
  }

  /** A face on radial index r between angles t and NextAngle(t), spanning
      layers 0 and 1 (innerWall at r = 0, outerWall at r = n_r). */
  function WallFace(g: Grid, t: nat, r: nat): seq<nat>
    requires Valid(g)
  {
    var n := NextAngle(g, t);
    [Idx(g, 0, t, r), Idx(g, 0, n, r), Idx(g, 1, n, r), Idx(g, 1, t, r)]
  }

  /** Every vertex of a side face lies on angular slot t, and the face
      walks (0, r), (0, r + 1), (1, r + 1), (1, r) in (layer, radial). */
  lemma SideFaceShape(g: Grid, t: nat, r: nat)
    requires Valid(g) && t < AngularSlots(g) && r < g.nR
    ensures forall j :: 0 <= j < 4 ==> SideFace(g, t, r)[j] < VertexCount(g)
    ensures forall j :: 0 <= j < 4 ==> Decode(g, SideFace(g, t, r)[j]).angle == t
    ensures Decode(g, SideFace(g, t, r)[0]) == Key(0, t, r)
    ensures Decode(g, SideFace(g, t, r)[1]) == Key(0, t, r + 1)
    ensures Decode(g, SideFace(g, t, r)[2]) == Key(1, t, r + 1)
    ensures Decode(g, SideFace(g, t, r)[3]) == Key(1, t, r)
  {
    DecodeIdx(g, 0, t, r);
    DecodeIdx(g, 0, t, r + 1);
    DecodeIdx(g, 1, t, r + 1);
    DecodeIdx(g, 1, t, r);
  }

  /** Every vertex of a cap face lies on layer z, and the cap faces of the
      two layers are exactly the bottom (v0 v1 v2 v3) and top (v4 v5 v6 v7)
      corners of the block they close. */
  lemma CapFaceShape(g: Grid, z: nat, t: nat, r: nat)
    requires Valid(g) && z <= NAxial && IsCell(g, t, r)
    ensures forall j :: 0 <= j < 4 ==> CapFace(g, z, t, r)[j] < VertexCount(g)
    ensures forall j :: 0 <= j < 4 ==> Decode(g, CapFace(g, z, t, r)[j]).layer == z
    ensures CapFace(g, 0, t, r) == Corners(g, t, r)[..4]
    ensures CapFace(g, 1, t, r) == Corners(g, t, r)[4..]
  {
    var n := NextAngle(g, t);
    DecodeIdx(g, z, t, r);
    DecodeIdx(g, z, n, r);
    DecodeIdx(g, z, n, r + 1);
    DecodeIdx(g, z, t, r + 1);
  }

  /** Every vertex of a wall face lies on radial index r, and the face walks
      (0, t), (0, next), (1, next), (1, t) in (layer, angle). */
  lemma WallFaceShape(g: Grid, t: nat, r: nat)
    requires Valid(g) && t < g.nTheta && r <= g.nR
    ensures forall j :: 0 <= j < 4 ==> WallFace(g, t, r)[j] < VertexCount(g)
    ensures forall j :: 0 <= j < 4 ==> Decode(g, WallFace(g, t, r)[j]).radial == r
    ensures Decode(g, WallFace(g, t, r)[0]) == Key(0, t, r)
    ensures Decode(g, WallFace(g, t, r)[1]) == Key(0, NextAngle(g, t), r)
    ensures Decode(g, WallFace(g, t, r)[2]) == Key(1, NextAngle(g, t), r)
    ensures Decode(g, WallFace(g, t, r)[3]) == Key(1, t, r)
  {
    var n := NextAngle(g, t);
    DecodeIdx(g, 0, t, r);
    DecodeIdx(g, 0, n, r);
    DecodeIdx(g, 1, n, r);
    DecodeIdx(g, 1, t, r);
  }

  /** A symmetry patch: the radial loop at angular slot t. */
  method SymmetryPatch(g: Grid, t: nat) returns (faces: seq<seq<nat>>)
    requires Valid(g) && t < AngularSlots(g)
    ensures |faces| == g.nR
    ensures forall r :: 0 <= r < |faces| ==> faces[r] == SideFace(g, t, r)
    ensures forall k, j :: 0 <= k < |faces| && 0 <= j < |faces[k]| ==> Decode(g, faces[k][j]).angle == t
    ensures AllWithin(faces, VertexCount(g))
  {
    faces := [];
    var r := 0;
    while r < g.nR
      invariant r <= g.nR && |faces| == r
      invariant forall i :: 0 <= i < r ==> faces[i] == SideFace(g, t, i)
      invariant forall k, j :: 0 <= k < |faces| && 0 <= j < |faces[k]| ==> Decode(g, faces[k][j]).angle == t
      invariant AllWithin(faces, VertexCount(g))
    {
      SideFaceShape(g, t, r);
      faces := faces + [SideFace(g, t, r)];
      r := r + 1;
    }
  }

  /** Faces so far are the cap faces of the cells in block order, all on
      layer z and all naming vertices. */
  ghost predicate CapPrefix(g: Grid, z: nat, faces: seq<seq<nat>>)
    requires Valid(g)
  {
    && (forall k :: 0 <= k < |faces| ==> 0 < g.nR && faces[k] == CapFace(g, z, k / g.nR, k % g.nR))
    && (forall k, j :: 0 <= k < |faces| && 0 <= j < |faces[k]| ==> Decode(g, faces[k][j]).layer == z)
    && AllWithin(faces, VertexCount(g))
  }

  /** The radial loop of a cap patch at angular step t. */
  method AppendCapRow(g: Grid, z: nat, t: nat, faces0: seq<seq<nat>>) returns (faces: seq<seq<nat>>)
    requires Valid(g) && z <= NAxial && t < g.nTheta
    requires |faces0| == t * g.nR && CapPrefix(g, z, faces0)
    ensures |faces| == (t + 1) * g.nR && CapPrefix(g, z, faces)
  {
    faces := faces0;
    var r := 0;
    while r < g.nR
      invariant r <= g.nR
      invariant |faces| == t * g.nR + r
      invariant CapPrefix(g, z, faces)
    {
      DivModUnique(|faces|, g.nR, t, r);
      CapFaceShape(g, z, t, r);
      faces := faces + [CapFace(g, z, t, r)];
      r := r + 1;
    }
  }

  /** An axial cap patch (front or back): the angular and radial loops on
      layer z, one face per cell in block order. */
  method CapPatch(g: Grid, z: nat) returns (faces: seq<seq<nat>>)
    requires Valid(g) && z <= NAxial
    ensures |faces| == g.nTheta * g.nR
    ensures forall t: nat, r: nat :: IsCell(g, t, r) ==>
              t * g.nR + r < |faces| && faces[t * g.nR + r] == CapFace(g, z, t, r)
    ensures forall k, j :: 0 <= k < |faces| && 0 <= j < |faces[k]| ==> Decode(g, faces[k][j]).layer == z
    ensures AllWithin(faces, VertexCount(g))
  {
    faces := [];
    var t := 0;
    while t < g.nTheta
      invariant t <= g.nTheta
      invariant |faces| == t * g.nR
      invariant CapPrefix(g, z, faces)
    {
      faces := AppendCapRow(g, z, t, faces);
      t := t + 1;
    }
    forall t: nat, r: nat | IsCell(g, t, r)
      ensures t * g.nR + r < |faces| && faces[t * g.nR + r] == CapFace(g, z, t, r)
    {
      RowMajorBound(t, r, g.nTheta, g.nR);
      DivModUnique(t * g.nR + r, g.nR, t, r);
    }
  }

  /** A wall patch (innerWall or outerWall): the angular loop at radial index r. */
  method WallPatch(g: Grid, r: nat) returns (faces: seq<seq<nat>>)
    requires Valid(g) && r <= g.nR
    ensures |faces| == g.nTheta
    ensures forall t :: 0 <= t < |faces| ==> faces[t] == WallFace(g, t, r)
    ensures forall k, j :: 0 <= k < |faces| && 0 <= j < |faces[k]| ==> Decode(g, faces[k][j]).radial == r
    ensures AllWithin(faces, VertexCount(g))
  {
    faces := [];
    var t := 0;
    while t < g.nTheta
      invariant t <= g.nTheta && |faces| == t
      invariant forall i :: 0 <= i < t ==> faces[i] == WallFace(g, i, r)
      invariant forall k, j :: 0 <= k < |faces| && 0 <= j < |faces[k]| ==> Decode(g, faces[k][j]).radial == r
      invariant AllWithin(faces, VertexCount(g))
    {
      WallFaceShape(g, t, r);
      faces := faces + [WallFace(g, t, r)];
      t := t + 1;
    }
  }

  /** The boundary patches. */
  datatype PatchName = SymmetryX | SymmetryY | Front | Back | InnerWall | OuterWall

  /** Where a quadrilateral lies: inside the domain, or on one patch. */
  datatype Location = Interior | OnPatch(name: PatchName)

  /** Which boundary a quadrilateral lies on, read from the keys of its
      corners alone: a face on one layer closes the slab (back on layer 0,
      front on the top layer), a face on one radius is a wall when that
      radius is the first or the last, and a face on one angular slot is a
      symmetry plane when the wedge starts or ends there. Anything else is an
      interior face. */
  function BoundaryOf(g: Grid, face: seq<nat>): Location
    requires Valid(g) && |face| == 4
  {
    var a, b, c, d := Decode(g, face[0]), Decode(g, face[1]), Decode(g, face[2]), Decode(g, face[3]);
    if a.layer == b.layer == c.layer == d.layer then
      if a.layer == 0 then OnPatch(Back) else if a.layer == NAxial then OnPatch(Front) else Interior
    else if a.radial == b.radial == c.radial == d.radial then
      if a.radial == 0 then OnPatch(InnerWall) else if a.radial == g.nR then OnPatch(OuterWall) else Interior
    else if a.angle == b.angle == c.angle == d.angle && g.mode == Wedge then
      if a.angle == 0 then OnPatch(SymmetryX) else if a.angle == g.nTheta then OnPatch(SymmetryY) else Interior
    else Interior
  }

  /** Symmetry faces are recognised as symmetryX at angular slot 0 and as
      symmetryY at slot n_theta. */
  lemma SideFaceBoundary(g: Grid, t: nat, r: nat)
    requires Valid(g) && g.mode == Wedge && (t == 0 || t == g.nTheta) && r < g.nR
    ensures BoundaryOf(g, SideFace(g, t, r)) == OnPatch(if t == 0 then SymmetryX else SymmetryY)
  {
    SideFaceShape(g, t, r);
  }

  /** Cap faces are recognised as back on layer 0 and front on layer 1. */
  lemma CapFaceBoundary(g: Grid, z: nat, t: nat, r: nat)
    requires Valid(g) && z <= NAxial && IsCell(g, t, r)
    ensures BoundaryOf(g, CapFace(g, z, t, r)) == OnPatch(if z == 0 then Back else Front)
  {
    CapFaceShape(g, z, t, r);
  }

  /** Wall faces are recognised as innerWall at radius 0 and outerWall at
      radius n_r, provided there is at least one radial cell (with none the
      two walls would be the same faces). */
  lemma WallFaceBoundary(g: Grid, t: nat, r: nat)
    requires Valid(g) && t < g.nTheta && (r == 0 || r == g.nR) && g.nR >= 1
    ensures BoundaryOf(g, WallFace(g, t, r)) == OnPatch(if r == 0 then InnerWall else OuterWall)
  {
    WallFaceShape(g, t, r);
  }

  /** The six faces of a hexahedral cell. */
  datatype Side = Bottom | Top | Inner | Outer | Near | Far

  /** A face of cell (t, r) as four of its corners v0..v7. */
  function CellFace(g: Grid, t: nat, r: nat, side: Side): (f: seq<nat>)
    requires Valid(g)
    ensures |f| == 4
  {
    var v := Corners(g, t, r);
    match side
    case Bottom => [v[0], v[1], v[2], v[3]]
    case Top => [v[4], v[5], v[6], v[7]]
    case Inner => [v[0], v[1], v[5], v[4]]
    case Outer => [v[3], v[2], v[6], v[7]]
    case Near => [v[0], v[3], v[7], v[4]]
    case Far => [v[1], v[2], v[6], v[5]]
  }

  /** Every face of every cell is accounted for: the bottom and top faces
      are the back and front cap faces; a radial face is a wall face at the
      first or last radius and otherwise the opposite face of the radial
      neighbour; an angular face is a symmetry face at the two ends of a
      wedge and otherwise the opposite face of the angular neighbour, which
      in a full revolution wraps round. Together with `BoundaryOf` telling
      the patches apart, the boundary patches cover the domain surface. */
  lemma CellFacesAccounted(g: Grid, t: nat, r: nat)
    requires Valid(g) && IsCell(g, t, r)
    ensures CellFace(g, t, r, Bottom) == CapFace(g, 0, t, r)
    ensures CellFace(g, t, r, Top) == CapFace(g, 1, t, r)
    ensures r == 0 ==> CellFace(g, t, r, Inner) == WallFace(g, t, 0)
    ensures r > 0 ==> CellFace(g, t, r, Inner) == CellFace(g, t, r - 1, Outer)
    ensures r + 1 == g.nR ==> CellFace(g, t, r, Outer) == WallFace(g, t, g.nR)
    ensures r + 1 < g.nR ==> CellFace(g, t, r, Outer) == CellFace(g, t, r + 1, Inner)
    ensures g.mode == Wedge && t == 0 ==> CellFace(g, t, r, Near) == SideFace(g, 0, r)
    ensures g.mode == FullRevolution || t > 0 ==>
              PrevAngle(g, t) < g.nTheta && CellFace(g, t, r, Near) == CellFace(g, PrevAngle(g, t), r, Far)
    ensures g.mode == Wedge && t + 1 == g.nTheta ==> CellFace(g, t, r, Far) == SideFace(g, g.nTheta, r)
    ensures g.mode == FullRevolution || t + 1 < g.nTheta ==>
              NextAngle(g, t) < g.nTheta && CellFace(g, t, r, Far) == CellFace(g, NextAngle(g, t), r, Near)
  {
    if g.mode == FullRevolution || t > 0 {
      assert NextAngle(g, PrevAngle(g, t)) == t;
    }
  }

  /** A face of a particular cell. */
  datatype FaceRef = FaceRef(t: nat, r: nat, side: Side)

  /** The same face seen from the cell on its other side: the radial
      neighbour's outer or inner face, or the angular neighbour's far or near
      face. Bottom and top faces have no neighbour and refer to themselves. */
  function Across(g: Grid, t: nat, r: nat, side: Side): FaceRef
    requires Valid(g)
  {
    match side
    case Bottom | Top => FaceRef(t, r, side)
    case Inner => FaceRef(t, if r > 0 then r - 1 else 0, Outer)
    case Outer => FaceRef(t, r + 1, Inner)
    case Near => FaceRef(PrevAngle(g, t), r, Far)
    case Far => FaceRef(NextAngle(g, t), r, Near)
  }

  /** Where each face of a cell lies. Bottom and top lie on back and front.
      The inner face lies on innerWall at the first radial cell, and the
      outer face lies on outerWall at the last. In a wedge the near face of
      the first angular cell lies on symmetryX, and the far face of the last
      lies on symmetryY. Every other face is interior. */
  function SideLocation(g: Grid, t: nat, r: nat, side: Side): Location {
    match side
    case Bottom => OnPatch(Back)
    case Top => OnPatch(Front)
    case Inner => if r == 0 then OnPatch(InnerWall) else Interior
    case Outer => if r + 1 == g.nR then OnPatch(OuterWall) else Interior
    case Near => if g.mode == Wedge && t == 0 then OnPatch(SymmetryX) else Interior
    case Far => if g.mode == Wedge && t + 1 == g.nTheta then OnPatch(SymmetryY) else Interior
  }

  /** Reading the corner keys of one cell face finds it where `SideLocation`
      says it lies. */
  lemma CellFaceLocated(g: Grid, t: nat, r: nat, side: Side)
    requires Valid(g) && IsCell(g, t, r)
    ensures BoundaryOf(g, CellFace(g, t, r, side)) == SideLocation(g, t, r, side)
  {
    match side
    case Bottom => AxialFaceLocated(g, t, r, 0);
    case Top => AxialFaceLocated(g, t, r, 1);
    case Inner => RadialFaceLocated(g, t, r, r);
    case Outer => RadialFaceLocated(g, t, r, r + 1);
    case Near => AngularFaceLocated(g, t, r, t);
    case Far => AngularFaceLocated(g, t, r, NextAngle(g, t));
  }

  /** The bottom (z = 0) or top (z = 1) face of cell (t, r): all four
      corners on layer z. */
  lemma AxialFaceLocated(g: Grid, t: nat, r: nat, z: nat)
    requires Valid(g) && IsCell(g, t, r) && z <= NAxial
    ensures BoundaryOf(g, CellFace(g, t, r, if z == 0 then Bottom else Top)) ==
              OnPatch(if z == 0 then Back else Front)
  {
    var n := NextAngle(g, t);
    DecodeIdx(g, z, t, r);
    DecodeIdx(g, z, n, r);
    DecodeIdx(g, z, n, r + 1);
    DecodeIdx(g, z, t, r + 1);
  }

  /** The inner (q = r) or outer (q = r + 1) face of cell (t, r): all four
      corners on radial index q, spanning both layers. */
  lemma RadialFaceLocated(g: Grid, t: nat, r: nat, q: nat)
    requires Valid(g) && IsCell(g, t, r) && (q == r || q == r + 1)
    ensures BoundaryOf(g, CellFace(g, t, r, if q == r then Inner else Outer)) ==
              if q == 0 then OnPatch(InnerWall) else if q == g.nR then OnPatch(OuterWall) else Interior
  {
    var n := NextAngle(g, t);
    DecodeIdx(g, 0, t, q);
    DecodeIdx(g, 0, n, q);
    DecodeIdx(g, 1, n, q);
    DecodeIdx(g, 1, t, q);
  }

  /** The near (u = t) or far (u = NextAngle(t)) face of cell (t, r): all
      four corners on angular slot u, spanning both layers and radii. */
  lemma AngularFaceLocated(g: Grid, t: nat, r: nat, u: nat)
    requires Valid(g) && IsCell(g, t, r) && (u == t || u == NextAngle(g, t))
    ensures BoundaryOf(g, CellFace(g, t, r, if u == t then Near else Far)) ==
              if g.mode == Wedge && u == 0 then OnPatch(SymmetryX)
              else if g.mode == Wedge && u == g.nTheta then OnPatch(SymmetryY)
              else Interior
  {
    DecodeIdx(g, 0, u, r);
    DecodeIdx(g, 0, u, r + 1);
    DecodeIdx(g, 1, u, r + 1);
    DecodeIdx(g, 1, u, r);
  }

  /** All six faces of a cell, located. */
  lemma CellFaceLocations(g: Grid, t: nat, r: nat)
    requires Valid(g) && IsCell(g, t, r)
    ensures BoundaryOf(g, CellFace(g, t, r, Bottom)) == OnPatch(Back)
    ensures BoundaryOf(g, CellFace(g, t, r, Top)) == OnPatch(Front)
    ensures BoundaryOf(g, CellFace(g, t, r, Inner)) == if r == 0 then OnPatch(InnerWall) else Interior
    ensures BoundaryOf(g, CellFace(g, t, r, Outer)) == if r + 1 == g.nR then OnPatch(OuterWall) else Interior
    ensures BoundaryOf(g, CellFace(g, t, r, Near)) ==
              if g.mode == Wedge && t == 0 then OnPatch(SymmetryX) else Interior
    ensures BoundaryOf(g, CellFace(g, t, r, Far)) ==
              if g.mode == Wedge && t + 1 == g.nTheta then OnPatch(SymmetryY) else Interior
  {
    CellFaceLocated(g, t, r, Bottom);
    CellFaceLocated(g, t, r, Top);
    CellFaceLocated(g, t, r, Inner);
    CellFaceLocated(g, t, r, Outer);
    CellFaceLocated(g, t, r, Near);
    CellFaceLocated(g, t, r, Far);
  }

  /** An interior face of a cell is the matching face of the cell across
      it, and that cell is a cell of the mesh. */
  lemma InteriorFacesShared(g: Grid, t: nat, r: nat, side: Side)
    requires Valid(g) && IsCell(g, t, r)
    ensures BoundaryOf(g, CellFace(g, t, r, side)) == Interior ==>
      var a := Across(g, t, r, side);
      IsCell(g, a.t, a.r) && CellFace(g, a.t, a.r, a.side) == CellFace(g, t, r, side)
  {
    CellFaceLocated(g, t, r, side);
    CellFacesAccounted(g, t, r);
  }
}
