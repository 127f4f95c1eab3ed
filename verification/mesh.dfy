/** One generation pass: radii, vertices, blocks and boundary patches for a
    wedge or a full revolution, as the two generator scripts produce them
    before writing the blockMeshDict text. */
module Mesh {
  import opened Indexing
  import opened Radii
  import opened Vertices
  import opened Blocks
  import opened Patches

  datatype PatchType = SymmetryPlane | Empty | Wall

  datatype Patch = Patch(name: PatchName, kind: PatchType, faces: seq<seq<nat>>)

  /** The scripts' parameters. The angular span is in degrees; converting it
      to radians is the caller's `radPerDeg` factor (pi / 180). */
  datatype Config = Config(
    mode: Mode, r0: real, rMax: real, thetaDeg: real, nRadial: nat, nTheta: nat, zMin: real, zMax: real)

  datatype MeshData = MeshData(
    radii: seq<real>, vertices: seq<Vertex>, blocks: seq<seq<nat>>, cellCount: nat, patches: seq<Patch>)

  function DeltaTheta(cfg: Config, radPerDeg: real): real
    requires cfg.nTheta >= 1
  {
    cfg.thetaDeg * radPerDeg / cfg.nTheta as real
  }

  function DeltaZ(cfg: Config): real {
    (cfg.zMax - cfg.zMin) / NAxial as real
  }

  /** The patch names in the order they are written. */
  function PatchNames(mode: Mode): seq<PatchName> {
    match mode
    case Wedge => [SymmetryX, SymmetryY, Front, Back, InnerWall, OuterWall]
    case FullRevolution => [Front, Back, InnerWall, OuterWall]
  }

  /** The boundary type a patch of that name is written with. */
  function KindOf(name: PatchName): PatchType {
    match name
    case SymmetryX | SymmetryY => SymmetryPlane
    case Front | Back => Empty
    case InnerWall | OuterWall => Wall
  }

  /** How many faces a patch of that name has: one per radial cell for a
      symmetry plane, one per cell for a cap, one per angular cell for a wall. */
  function FaceCount(g: Grid, name: PatchName): nat {
    match name
    case SymmetryX | SymmetryY => g.nR
    case Front | Back => g.nTheta * g.nR
    case InnerWall | OuterWall => g.nTheta
  }

  /** A patch is well formed for grid g: it carries the type its name calls
      for, it has the expected number of faces, and every face is a
      quadrilateral of vertices of the list. */
  ghost predicate PatchFits(g: Grid, p: Patch) {
    && p.kind == KindOf(p.name)
    && |p.faces| == FaceCount(g, p.name)
    && (forall k :: 0 <= k < |p.faces| ==> |p.faces[k]| == 4)
    && AllWithin(p.faces, VertexCount(g))
  }

  /** Every face of the patch is recognised, from its corners alone, as a
      face of the boundary the patch names. */
  ghost predicate Classified(g: Grid, p: Patch)
    requires Valid(g)
  {
    forall k :: 0 <= k < |p.faces| && |p.faces[k]| == 4 ==> BoundaryOf(g, p.faces[k]) == OnPatch(p.name)
  }

  /** The cap faces on layer z, one per cell in block order. */
  ghost predicate CapOrder(g: Grid, z: nat, faces: seq<seq<nat>>)
    requires Valid(g)
  {
    forall t: nat, r: nat :: IsCell(g, t, r) ==>
      t * g.nR + r < |faces| && faces[t * g.nR + r] == CapFace(g, z, t, r)
  }

  /** The faces a patch of that name holds, in the order they are written:
      symmetry faces at angular slot 0 or n_theta, cap faces on layer 0 or 1,
      wall faces at radius 0 or n_r. With the face count of `PatchFits` this
      fixes the contents of the patch. */
  ghost predicate HoldsFaces(g: Grid, p: Patch)
    requires Valid(g)
  {
    match p.name
    case SymmetryX => forall r :: 0 <= r < |p.faces| ==> p.faces[r] == SideFace(g, 0, r)
    case SymmetryY => forall r :: 0 <= r < |p.faces| ==> p.faces[r] == SideFace(g, g.nTheta, r)
    case Front => CapOrder(g, 1, p.faces)
    case Back => CapOrder(g, 0, p.faces)
    case InnerWall => forall t :: 0 <= t < |p.faces| ==> p.faces[t] == WallFace(g, t, 0)
    case OuterWall => forall t :: 0 <= t < |p.faces| ==> p.faces[t] == WallFace(g, t, g.nR)
  }

  /** The patch written under `name`: well formed, holding exactly its
      faces, and, once there is a radial cell, each face recognised as lying
      on that boundary. */
  ghost predicate PatchOk(g: Grid, name: PatchName, p: Patch)
    requires Valid(g)
  {
    p.name == name && PatchFits(g, p) && HoldsFaces(g, p) && (g.nR >= 1 ==> Classified(g, p))
  }

  /** The patches are the ones of the mode, in the written order. */
  ghost predicate PatchesOk(g: Grid, patches: seq<Patch>)
    requires Valid(g)
  {
    && |patches| == |PatchNames(g.mode)|
    && forall i :: 0 <= i < |patches| ==> PatchOk(g, PatchNames(g.mode)[i], patches[i])
  }

  /** symmetryX at angular slot 0 and symmetryY at slot n_theta. */
  method SymmetryPatches(g: Grid) returns (x: Patch, y: Patch)
    requires Valid(g) && g.mode == Wedge
    ensures PatchOk(g, SymmetryX, x) && Classified(g, x)
    ensures PatchOk(g, SymmetryY, y) && Classified(g, y)
  {
    var xs := SymmetryPatch(g, 0);
    var ys := SymmetryPatch(g, g.nTheta);
    forall k | 0 <= k < g.nR
      ensures BoundaryOf(g, xs[k]) == OnPatch(SymmetryX) && BoundaryOf(g, ys[k]) == OnPatch(SymmetryY)
    {
      SideFaceBoundary(g, 0, k);
      SideFaceBoundary(g, g.nTheta, k);
    }
    x, y := Patch(SymmetryX, SymmetryPlane, xs), Patch(SymmetryY, SymmetryPlane, ys);
  }

  /** front on layer 1 and back on layer 0. */
  method CapPatches(g: Grid) returns (front: Patch, back: Patch)
    requires Valid(g)
    ensures PatchOk(g, Front, front) && Classified(g, front)
    ensures PatchOk(g, Back, back) && Classified(g, back)
  {
    var fs := CapPatch(g, 1);
    var bs := CapPatch(g, 0);
    CapFacesClassified(g, 1, fs);
    CapFacesClassified(g, 0, bs);
    front, back := Patch(Front, Empty, fs), Patch(Back, Empty, bs);
  }

  /** A position in block order names a cell, and is that cell's row-major
      position. */
  lemma SlotCell(g: Grid, k: nat)
    requires Valid(g) && k < g.nTheta * g.nR
    ensures g.nR > 0 && IsCell(g, k / g.nR, k % g.nR) && k == (k / g.nR) * g.nR + k % g.nR
  {
    Arith.QuotientBound(k, g.nTheta, g.nR);
  }

  /** The face at position k of a cap patch in block order is the cap face
      of the cell at that position. */
  lemma CapSlotFace(g: Grid, z: nat, faces: seq<seq<nat>>, k: nat)
    requires Valid(g) && |faces| == g.nTheta * g.nR && CapOrder(g, z, faces) && k < |faces|
    ensures g.nR > 0 && IsCell(g, k / g.nR, k % g.nR) && k == (k / g.nR) * g.nR + k % g.nR
    ensures faces[k] == CapFace(g, z, k / g.nR, k % g.nR)
  {
    SlotCell(g, k);
    var t, r := k / g.nR, k % g.nR;
    assert faces[t * g.nR + r] == CapFace(g, z, t, r);
  }

  lemma CapFacesClassified(g: Grid, z: nat, faces: seq<seq<nat>>)
    requires Valid(g) && z <= NAxial && |faces| == g.nTheta * g.nR
    requires CapOrder(g, z, faces)
    ensures forall k :: 0 <= k < |faces| ==>
              |faces[k]| == 4 && BoundaryOf(g, faces[k]) == OnPatch(if z == 0 then Back else Front)
  {
    forall k | 0 <= k < |faces|
      ensures |faces[k]| == 4 && BoundaryOf(g, faces[k]) == OnPatch(if z == 0 then Back else Front)
    {
      CapSlotFace(g, z, faces, k);
      CapFaceBoundary(g, z, k / g.nR, k % g.nR);
    }
  }

  /** innerWall at radius 0 and outerWall at radius n_r. With no radial cell
      the two walls are the same faces, so they are told apart only when
      n_r >= 1. */
  method WallPatches(g: Grid) returns (inner: Patch, outer: Patch)
    requires Valid(g)
    ensures PatchOk(g, InnerWall, inner)
    ensures PatchOk(g, OuterWall, outer)
  {
    var ins := WallPatch(g, 0);
    var outs := WallPatch(g, g.nR);
    if g.nR >= 1 {
      forall k | 0 <= k < g.nTheta
        ensures BoundaryOf(g, ins[k]) == OnPatch(InnerWall) && BoundaryOf(g, outs[k]) == OnPatch(OuterWall)
      {
        WallFaceBoundary(g, k, 0);
        WallFaceBoundary(g, k, g.nR);
      }
    }
    inner, outer := Patch(InnerWall, Wall, ins), Patch(OuterWall, Wall, outs);
  }

  /** The boundary section: symmetry planes (wedge only), then the caps,
      then the walls. */
  method GeneratePatches(g: Grid) returns (patches: seq<Patch>)
    requires Valid(g)
    ensures PatchesOk(g, patches)
  {
    var front, back := CapPatches(g);
    var inner, outer := WallPatches(g);
    if g.mode == Wedge {
      var x, y := SymmetryPatches(g);
      patches := [x, y, front, back, inner, outer];
    } else {
      patches := [front, back, inner, outer];
    }
  }

  /** The whole pass. The radii follow the growth rule; the vertex list has
      one vertex per key, placed where `Idx` puts it; there are n_theta * n_r
      blocks, all naming vertices, and the cell counter agrees; the patches
      are the six of a wedge or the four of a full revolution, each with its
      type, face count and faces, and with at least one radial cell every
      face is recognised as lying on the boundary its patch names. */
  method GenerateMesh(cfg: Config, radPerDeg: real) returns (m: MeshData)
    requires cfg.nTheta >= 1
    ensures IsRadiusSequence(m.radii, cfg.r0, DeltaTheta(cfg, radPerDeg), cfg.rMax, cfg.nRadial)
    ensures |m.radii| >= 1
    ensures var g := Grid(cfg.mode, cfg.nTheta, |m.radii| - 1);
      && |m.vertices| == VertexCount(g)
      && (forall i :: 0 <= i < |m.vertices| ==> m.vertices[i].key == Decode(g, i))
      && (forall z: nat, t: nat, r: nat :: InRange(g, Key(z, t, r)) ==>
            Idx(g, z, t, r) < |m.vertices| &&
            m.vertices[Idx(g, z, t, r)] == VertexOf(Placement(m.radii, DeltaTheta(cfg, radPerDeg), cfg.zMin, DeltaZ(cfg)), z, t, r))
      && m.cellCount == |m.blocks| == cfg.nTheta * g.nR
      && (forall t: nat, r: nat :: IsCell(g, t, r) ==>
            t * g.nR + r < |m.blocks| && m.blocks[t * g.nR + r] == Hex(g, t, r))
      && AllWithin(m.blocks, |m.vertices|)
      && PatchesOk(g, m.patches)
  {
    var dTheta := DeltaTheta(cfg, radPerDeg);
    var radii := GenerateRadii(cfg.r0, dTheta, cfg.rMax, cfg.nRadial);
    var g := Grid(cfg.mode, cfg.nTheta, |radii| - 1);
    var verts := GenerateVertices(g, Placement(radii, dTheta, cfg.zMin, DeltaZ(cfg)), cfg.thetaDeg);
    var blocks, cellCount := GenerateBlocks(g);
    var patches := GeneratePatches(g);
    m := MeshData(radii, verts, blocks, cellCount, patches);
  }

  /** No face is listed under two differently named patches. */
  lemma PatchesDisjoint(g: Grid, patches: seq<Patch>, i: nat, j: nat, a: nat, b: nat)
    requires Valid(g) && g.nR >= 1 && PatchesOk(g, patches)
    requires i < |patches| && j < |patches| && i != j
    requires a < |patches[i].faces| && b < |patches[j].faces|
    ensures patches[i].faces[a] != patches[j].faces[b]
  {
    assert PatchOk(g, PatchNames(g.mode)[i], patches[i]);
    assert PatchOk(g, PatchNames(g.mode)[j], patches[j]);
    assert patches[i].name != patches[j].name;
  }

  /** The position of a patch name in the written order of the mode. */
  function PatchIndex(mode: Mode, name: PatchName): nat {
    match mode
    case Wedge => (
      match name
      case SymmetryX => 0
      case SymmetryY => 1
      case Front => 2
      case Back => 3
      case InnerWall => 4
      case OuterWall => 5)
    case FullRevolution => (
      // A full revolution writes no symmetry planes, and `BoundaryOf` never
      // names one there, so those two names are sent to 0 only for totality.
      match name
      case SymmetryX | SymmetryY | Front => 0
      case Back => 1
      case InnerWall => 2
      case OuterWall => 3)
  }

  /** The position within its patch at which a boundary face of cell (t, r)
      is written: block order for a cap, the angular step for a wall, the
      radial step for a symmetry plane. */
  function FaceSlot(g: Grid, t: nat, r: nat, side: Side): nat {
    match side
    case Bottom | Top => t * g.nR + r
    case Inner | Outer => t
    case Near | Far => r
  }

  /** No boundary face is omitted: every face of every cell that lies on a
      boundary is written in the generated patch of that name, and every
      other face is shared with the cell across it. */
  lemma CellFacesCovered(g: Grid, patches: seq<Patch>, t: nat, r: nat, side: Side)
    requires Valid(g) && IsCell(g, t, r) && PatchesOk(g, patches)
    ensures var loc := BoundaryOf(g, CellFace(g, t, r, side));
      loc.OnPatch? ==>
        var i, k := PatchIndex(g.mode, loc.name), FaceSlot(g, t, r, side);
        && i < |patches| && patches[i].name == loc.name
        && k < |patches[i].faces| && patches[i].faces[k] == CellFace(g, t, r, side)
    ensures BoundaryOf(g, CellFace(g, t, r, side)) == Interior ==>
      var a := Across(g, t, r, side);
      IsCell(g, a.t, a.r) && CellFace(g, a.t, a.r, a.side) == CellFace(g, t, r, side)
  {
    CellFaceLocated(g, t, r, side);
    var loc := SideLocation(g, t, r, side);
    if loc.OnPatch? {
      BoundaryFaceListed(g, patches, t, r, side);
    }
    InteriorFacesShared(g, t, r, side);
  }

  /** A cell face that `SideLocation` puts on a patch is written in that
      patch at `FaceSlot`. */
  lemma BoundaryFaceListed(g: Grid, patches: seq<Patch>, t: nat, r: nat, side: Side)
    requires Valid(g) && IsCell(g, t, r) && PatchesOk(g, patches)
    requires SideLocation(g, t, r, side).OnPatch?
    ensures var name := SideLocation(g, t, r, side).name;
      var i, k := PatchIndex(g.mode, name), FaceSlot(g, t, r, side);
      && i < |patches| && patches[i].name == name
      && k < |patches[i].faces| && patches[i].faces[k] == CellFace(g, t, r, side)
  {
    match side
    case Bottom => CapFaceListed(g, patches, t, r, 0);
    case Top => CapFaceListed(g, patches, t, r, 1);
    case Inner => WallFaceListed(g, patches, t, r, 0);
    case Outer => WallFaceListed(g, patches, t, r, g.nR);
    case Near => SideFaceListed(g, patches, t, r, 0);
    case Far => SideFaceListed(g, patches, t, r, g.nTheta);
  }

  /** The back (z = 0) or front (z = 1) face of a cell is written at its
      block-order position in that patch. */
  lemma CapFaceListed(g: Grid, patches: seq<Patch>, t: nat, r: nat, z: nat)
    requires Valid(g) && IsCell(g, t, r) && PatchesOk(g, patches) && z <= NAxial
    ensures var name := if z == 0 then Back else Front;
      var i, k := PatchIndex(g.mode, name), t * g.nR + r;
      && i < |patches| && patches[i].name == name
      && k < |patches[i].faces| && patches[i].faces[k] == CellFace(g, t, r, if z == 0 then Bottom else Top)
  {
    var name := if z == 0 then Back else Front;
    var i := PatchIndex(g.mode, name);
    assert PatchNames(g.mode)[i] == name;
    assert PatchOk(g, name, patches[i]);
    assert CapOrder(g, z, patches[i].faces);
  }

  /** The inner face of a first radial cell (q = 0) or the outer face of a
      last one (q = n_r) is written at its angular step in that wall. */
  lemma WallFaceListed(g: Grid, patches: seq<Patch>, t: nat, r: nat, q: nat)
    requires Valid(g) && IsCell(g, t, r) && PatchesOk(g, patches)
    requires (q == 0 && r == 0) || (q == g.nR && r + 1 == g.nR)
    ensures var name := if q == 0 then InnerWall else OuterWall;
      var i := PatchIndex(g.mode, name);
      && i < |patches| && patches[i].name == name
      && t < |patches[i].faces| && patches[i].faces[t] == CellFace(g, t, r, if q == 0 then Inner else Outer)
  {
    var name := if q == 0 then InnerWall else OuterWall;
    var i := PatchIndex(g.mode, name);
    assert PatchNames(g.mode)[i] == name;
    assert PatchOk(g, name, patches[i]);
  }

  /** In a wedge, the near face of a first angular cell (u = 0) or the far
      face of a last one (u = n_theta) is written at its radial step in that
      symmetry plane. */
  lemma SideFaceListed(g: Grid, patches: seq<Patch>, t: nat, r: nat, u: nat)
    requires Valid(g) && IsCell(g, t, r) && PatchesOk(g, patches) && g.mode == Wedge
    requires (u == 0 && t == 0) || (u == g.nTheta && t + 1 == g.nTheta)
    ensures var name := if u == 0 then SymmetryX else SymmetryY;
      var i := PatchIndex(g.mode, name);
      && i < |patches| && patches[i].name == name
      && r < |patches[i].faces| && patches[i].faces[r] == CellFace(g, t, r, if u == 0 then Near else Far)
  {
    var name := if u == 0 then SymmetryX else SymmetryY;
    var i := PatchIndex(g.mode, name);
    assert PatchNames(g.mode)[i] == name;
    assert PatchOk(g, name, patches[i]);
  }

  /** No face is written twice within one patch. */
  lemma PatchFacesDistinct(g: Grid, patches: seq<Patch>, i: nat, a: nat, b: nat)
    requires Valid(g) && PatchesOk(g, patches)
    requires i < |patches| && a < b < |patches[i].faces|
    ensures patches[i].faces[a] != patches[i].faces[b]
  {
    var p := patches[i];
    assert PatchOk(g, PatchNames(g.mode)[i], p);
    match p.name
    case SymmetryX =>
      SideFaceShape(g, 0, a);
      SideFaceShape(g, 0, b);
    case SymmetryY =>
      SideFaceShape(g, g.nTheta, a);
      SideFaceShape(g, g.nTheta, b);
    case Front =>
      CapFacesDistinct(g, 1, p.faces, a, b);
    case Back =>
      CapFacesDistinct(g, 0, p.faces, a, b);
    case InnerWall =>
      WallFaceShape(g, a, 0);
      WallFaceShape(g, b, 0);
    case OuterWall =>
      WallFaceShape(g, a, g.nR);
      WallFaceShape(g, b, g.nR);
  }

  /** Cap faces written in block order are pairwise different: their first
      corners are the (t, r) corners of different cells. */
  lemma CapFacesDistinct(g: Grid, z: nat, faces: seq<seq<nat>>, a: nat, b: nat)
    requires Valid(g) && z <= NAxial && |faces| == g.nTheta * g.nR && CapOrder(g, z, faces)
    requires a < b < |faces|
    ensures faces[a] != faces[b]
  {
    CapSlotFace(g, z, faces, a);
    CapSlotFace(g, z, faces, b);
    var ta, ra, tb, rb := a / g.nR, a % g.nR, b / g.nR, b % g.nR;
    assert faces[a][0] == Idx(g, z, ta, ra);
    assert faces[b][0] == Idx(g, z, tb, rb);
    if faces[a] == faces[b] {
      IdxInjective(g, Key(z, ta, ra), Key(z, tb, rb));
    }
  }
}
