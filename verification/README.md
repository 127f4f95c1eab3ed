# Polar blockMeshDict generator — Dafny model

The two scripts `blockMeshDict_gen.py` (a wedge) and `blockMeshDict_gen360.py`
(a full revolution) write an OpenFOAM `blockMeshDict` for a polar mesh one
axial cell thick. Under the file writing and plotting, each holds the same
small sequential core, and this project models it:

1. **Radius sequence** (`Radii`). The sequence starts at `r0`. Each radius is
   the previous one times `(1 + delta_theta)`. The loop stops before the first
   value above `r_max`, or after `n_radial` steps.
2. **Vertex numbering** (`Indexing`, `Vertices`). Vertices are appended axial
   layer first, then angular slot, then radius. `idx(z, t, r)` maps a key
   (layer, angle, radius) to its position. A wedge has `n_theta + 1` angular
   slots. A full revolution has `n_theta` slots, and the angular neighbour
   wraps modulo `n_theta`.
3. **Topology** (`Blocks`, `Patches`, `Mesh`). Blocks are 8-tuples written in
   the order `(v0 v3 v2 v1 v4 v7 v6 v5)`. The boundary patches are 4-tuples:
   `symmetryX` and `symmetryY` (wedge only), then `front`, `back`,
   `innerWall` and `outerWall`.

One model covers both scripts through `Indexing.Mode` (`Wedge` or
`FullRevolution`). The number of axial cells is the constant
`Indexing.NAxial = 1`, because blocks and patches only connect layers 0 and 1.
A vertex is kept as its key plus its cylindrical coordinates. These are the
radius `radii[r]`, the angle `t * delta_theta` and the height
`z_min + z * delta_z`.

The scripts do not validate their parameters, and the model follows them:

- Nothing raises a configuration error. The only precondition is
  `n_theta >= 1`, because `delta_theta` divides by `n_theta`.
- `n_r = 0` is allowed, as in the scripts. It gives no blocks, and the inner
  and outer walls are then the same faces.
- The radii strictly increase when `r0 > 0` and `delta_theta > 0`. The
  lemmas about monotonicity state these conditions.
- With `r0 >= 0` and `delta_theta >= 0`, `r0 > r_max` yields the single
  radius `[r0]`. With a negative growth rate the first step can fall back
  below `r_max`.

Besides the contracts on each operation, the model has three independent
reference definitions:

- the closed form `r0 * (1 + delta_theta)^i` for the radii;
- `Indexing.Decode`, the inverse of `idx`;
- `Patches.BoundaryOf`, which names the boundary a quadrilateral lies on from
  the keys of its corners alone.

`Mesh.GenerateMesh` ties them together. Each generated patch holds exactly
the faces the scripts write, in the order they write them. Once there is a
radial cell, every face of every patch is recognised as lying on the boundary
that patch names. The boundary faces are then accounted for as follows:

- `Patches.CellFaceLocations` says where each of the six faces of a cell
  lies.
- `Mesh.CellFacesCovered` says that a cell face lying on a boundary is
  written in the generated patch of that name, at a known position. Every
  other cell face is the matching face of the cell across it.
- `Mesh.PatchesDisjoint` says that no face is written under two patches.
  `Mesh.PatchFacesDistinct` says that no face is written twice within one
  patch.

## Model

| member | source | states |
|---|---|---|
| Radii.GenerateRadii | blockMeshDict_gen.py:34-40 | The result starts at r0. Each later radius is the previous one times (1 + delta_theta). Every appended radius is at most r_max. At most n_radial radii are appended. The loop stops early only because the next value would exceed r_max. |
| Radii.ClosedForm | blockMeshDict_gen.py:35-39 | The i-th radius equals r0 * (1 + delta_theta)^i. |
| Radii.StrictlyIncreasing | blockMeshDict_gen360.py:34-40 | With r0 > 0 and delta_theta > 0, the radii strictly increase, so no two radial layers coincide. |
| Radii.Bounds | blockMeshDict_gen.py:34-40 | With r0 > 0 and delta_theta > 0: if r0 <= r_max, every radius lies in [r0, r_max], and if already r0 * (1 + delta_theta) > r_max, the sequence is just [r0]. |
| Radii.SingleRadius | blockMeshDict_gen.py:35-38 | For any signs, the sequence is just [r0] when the first step r0 * (1 + delta_theta) already exceeds r_max. With r0 >= 0 and delta_theta >= 0, the same holds whenever r0 > r_max. |
| Radii.Unique | blockMeshDict_gen360.py:34-40 | The loop's description determines the sequence: two sequences that satisfy it are equal. |
| Radii.NotLonger | blockMeshDict_gen.py:37-38 | A sequence satisfying the description cannot run past the point where another one stopped at the cap or at r_max. |
| Indexing.ThetaMaxIndex | blockMeshDict_gen360.py:47 | Both branches of the conditional give n_theta, so the full-revolution vertex loop never duplicates the slot at 360 degrees. |
| Indexing.NextAngle | blockMeshDict_gen360.py:83 | The next angle lies among the angular slots. Away from the seam it is t + 1. In a full revolution, n_theta - 1 wraps to 0. In a wedge, the last step reaches slot n_theta. |
| Indexing.NextAngleCyclic | blockMeshDict_gen360.py:82-83 | In a full revolution, the angular step permutes [0, n_theta) cyclically: it stays in range, every angle has a predecessor, and it is injective. |
| Indexing.DecodeIdx | blockMeshDict_gen.py:71-72 | idx maps every key in range below the vertex count (n_axial+1)*slots*(n_r+1), and decoding the index gives back the key. |
| Indexing.IdxDecode | blockMeshDict_gen360.py:65-66 | Every position below the vertex count decodes to a key in range that idx maps back to that position. |
| Indexing.IdxInjective | blockMeshDict_gen.py:71-72 | Different keys in range get different indices. |
| Indexing.IdxBijective | blockMeshDict_gen360.py:65-66 | idx is a bijection from [0,n_axial] x [0,slots) x [0,n_r] onto [0, vertex count): it maps into the range, it is onto, and it is one-to-one. |
| Vertices.GenerateVertices | blockMeshDict_gen.py:44-52 | The nested loops append exactly the vertex count of vertices. Position i holds the key that decodes from i. The vertex appended for (z, t, r) sits at idx(z, t, r), with radius radii[r], angle t*delta_theta and height z_min + z*delta_z. |
| Vertices.AppendRay | blockMeshDict_gen.py:49-52 | The radial loop for layer z and angular slot t appends n_r + 1 vertices, and every position holds the vertex idx assigns to it. |
| Vertices.AppendLayer | blockMeshDict_gen360.py:48-53 | The angular loop of one layer appends one layer stride of vertices and keeps every position at the vertex idx assigns to it. |
| Blocks.HexShape | blockMeshDict_gen.py:86-99 | A block has 8 corners, all below the vertex count. Each top corner is its bottom corner plus the layer stride (n_theta+1)*(n_r+1). Written in the order (v0 v3 v2 v1 v4 v7 v6 v5), the corners decode to (0,t,r), (0,t,r+1), (0,next,r+1), (0,next,r), and the same on layer 1. |
| Blocks.HexCornersDistinct | blockMeshDict_gen360.py:83-92 | The 8 corners of a block are pairwise distinct exactly when the mode is a wedge or n_theta >= 2. |
| Blocks.SharedFaces | blockMeshDict_gen360.py:85-92 | A block's (i_theta_next, ·) corners equal the (i_theta, ·) corners of the block at the next angular step. Its outer radial corners equal the inner ones of the next radial block. The last angular column shares its corners with column 0. |
| Blocks.HexDistinct | blockMeshDict_gen.py:86-99 | Two cells write the same 8-tuple exactly when they are the same cell, so no block is written twice. |
| Blocks.GenerateBlocks | blockMeshDict_gen360.py:82-96 | Exactly n_theta*n_r blocks are written, and cell_count ends equal to that number. The block at loop position t*n_r + r is the permuted hexahedron of cell (t, r). Every block has 8 indices below the vertex count. |
| Blocks.AppendBlockRow | blockMeshDict_gen360.py:84-96 | The radial loop at angular step t appends n_r blocks in order and counts each one. |
| Patches.SideFaceShape | blockMeshDict_gen.py:109-124 | A symmetry face's four vertices are below the vertex count and all have angular index t. They walk (0,r), (0,r+1), (1,r+1), (1,r). |
| Patches.CapFaceShape | blockMeshDict_gen.py:129-145 | A front/back face's vertices are below the vertex count and all lie on layer z. The back face is the block's bottom corners (v0 v1 v2 v3), and the front face is its top corners (v4 v5 v6 v7). |
| Patches.WallFaceShape | blockMeshDict_gen.py:150-165 | A wall face's vertices are below the vertex count and all have radial index r. They walk (0,t), (0,next), (1,next), (1,t). |
| Patches.SymmetryPatch | blockMeshDict_gen.py:108-125 | The patch has n_r faces, the r-th being the side face at (t, r). Every vertex has angular index t. Every index is below the vertex count. |
| Patches.CapPatch | blockMeshDict_gen360.py:105-125 | The patch has n_theta*n_r faces in block order, using the wrapped next angle. Every vertex lies on layer z. Every index is below the vertex count. |
| Patches.AppendCapRow | blockMeshDict_gen.py:130-135 | The radial loop of a cap patch appends n_r faces in block order. |
| Patches.WallPatch | blockMeshDict_gen360.py:128-147 | The patch has n_theta faces, the t-th being the wall face at (t, r), using the wrapped next angle. Every vertex has radial index r. Every index is below the vertex count. |
| Patches.SideFaceBoundary | blockMeshDict_gen.py:107-125 | From its corners alone, a wedge side face at slot 0 is recognised as symmetryX, and one at slot n_theta as symmetryY. |
| Patches.CapFaceBoundary | blockMeshDict_gen.py:127-146 | From its corners alone, a cap face on layer 0 is recognised as back, and one on layer 1 as front. |
| Patches.WallFaceBoundary | blockMeshDict_gen360.py:127-147 | With n_r >= 1, a wall face at radius 0 is recognised as innerWall from its corners alone, and one at radius n_r as outerWall. |
| Patches.CellFacesAccounted | blockMeshDict_gen.py:86-166 | Every face of every cell is accounted for. The bottom and top are the back and front cap faces. A radial face is a wall face at the first or last radius, and otherwise the opposite face of the radial neighbour. An angular face is a symmetry face at the ends of a wedge, and otherwise the opposite face of the angular neighbour, wrapping in a full revolution. |
| Mesh.SymmetryPatches | blockMeshDict_gen.py:107-125 | symmetryX and symmetryY are symmetryPlane patches of n_r faces each, with all indices in range. Face r of symmetryX is the side face at slot 0, and face r of symmetryY is the side face at slot n_theta. Every face is recognised as lying on its own patch. |
| Mesh.CapPatches | blockMeshDict_gen360.py:104-125 | front and back are empty patches of n_theta*n_r faces each, with all indices in range. Face t*n_r + r is the cap face of cell (t, r), on layer 1 for front and layer 0 for back. Every face is recognised as lying on its own patch. |
| Mesh.CapFacesClassified | blockMeshDict_gen.py:128-146 | Every face of a cap patch built in block order is a quadrilateral recognised as back on layer 0 and as front on layer 1. |
| Mesh.WallPatches | blockMeshDict_gen.py:148-166 | innerWall and outerWall are wall patches of n_theta faces each, with all indices in range. Face t is the wall face at (t, 0) for innerWall and at (t, n_r) for outerWall. With n_r >= 1 every face is recognised as lying on its own patch. |
| Mesh.GeneratePatches | blockMeshDict_gen360.py:104-147 | A wedge has six patches in the written order and a full revolution has four, with no symmetry patches. Each patch has its type, its face count and exactly the faces written for it, in order, with all indices in range. With n_r >= 1 each face lies on the boundary its patch names. |
| Mesh.GenerateMesh | blockMeshDict_gen.py:34-166 | One full pass. The radii follow the growth rule. The vertex at idx(z, t, r) has key (z, t, r), radius radii[r], angle t*delta_theta and height z_min + z*delta_z. There are n_theta*n_r blocks in loop order, and all indices are in range. The cell counter, which only the full-revolution script keeps (blockMeshDict_gen360.py lines 70 and 96), is kept for the wedge too and agrees. The patches are those of the mode, each with its type, count and faces. With n_r >= 1 every face is recognised as lying on its patch. |
| Mesh.PatchesDisjoint | blockMeshDict_gen.py:104-166 | With n_r >= 1, no face appears in two different patches. |
| Patches.CellFaceLocations | blockMeshDict_gen.py:107-166 | Read from its corner keys, the bottom and top of every cell lie on back and front. The inner face lies on innerWall exactly at the first radial cell, and the outer face lies on outerWall exactly at the last. In a wedge, the near face of the first angular cell lies on symmetryX and the far face of the last lies on symmetryY. Every other face is interior. |
| Patches.InteriorFacesShared | blockMeshDict_gen360.py:82-92 | A cell face recognised as interior is the matching face of a cell of the mesh across it: the radial neighbour, or the angular neighbour, wrapping in a full revolution. |
| Mesh.CellFacesCovered | blockMeshDict_gen.py:86-166 | No boundary face is omitted. A cell face lying on a boundary is written in the generated patch of that name: at position t*n_r + r for a cap, t for a wall, r for a symmetry plane. Any other cell face is shared with the cell across it. |
| Mesh.PatchFacesDistinct | blockMeshDict_gen360.py:104-147 | No face is written twice within one generated patch. |

## Left out

- Plotting and the matplotlib settings. They are visualisation only.
- Directory creation, file writing and the text syntax of the
  `blockMeshDict`: the header, `convertToMeters`, the `(1 1 n_axial)
  simpleGrading (1 1 1)` suffix, `edges` and `mergePatchPairs`. These are
  output formatting. The model produces the structured data that gets
  written.
- The final print of `cell_count * n_axial`. It is output only; the count
  itself is modelled.
- The Cartesian coordinates `x = r*cos(theta)`, `y = r*sin(theta)`. These
  need floating-point trigonometry, so vertices are kept in cylindrical form.
  The winding of each block is stated through its decoded corner keys. The
  positive signed volume of each cell is not stated; the scripts do not check
  it either.
- `np.deg2rad`. It becomes the caller-supplied factor `radPerDeg` in
  `Mesh.DeltaTheta`.
- Floating point. Radii are exact reals, so rounding in `r_next > r_max` is
  not modelled.
- More than one axial cell. The scripts hard-code layers 0 and 1 in blocks
  and patches, so `NAxial` is the constant 1.
- Mesh.GenerateMesh: its boundary classification holds only when n_r >= 1.
  With n_r = 0 the scripts write the same faces under innerWall and
  outerWall, so no such statement is true there. For the same reason
  `Mesh.PatchesDisjoint` requires n_r >= 1.
