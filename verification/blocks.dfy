/** Hexahedral blocks. The cell at angular step t and radial step r joins
    layers 0 and 1 between angles t and NextAngle(t) and radii r and r + 1. */
module Blocks {
  import opened Arith
  import opened Indexing

  /** The corners v0..v7: on layer 0 then on layer 1, each layer going
      (t, r), (next, r), (next, r + 1), (t, r + 1). */
  function Corners(g: Grid, t: nat, r: nat): seq<nat>
    requires Valid(g)
  {
    var n := NextAngle(g, t);
    [Idx(g, 0, t, r), Idx(g, 0, n, r), Idx(g, 0, n, r + 1), Idx(g, 0, t, r + 1),
     Idx(g, 1, t, r), Idx(g, 1, n, r), Idx(g, 1, n, r + 1), Idx(g, 1, t, r + 1)]
  }

  /** The block as written: (v0 v3 v2 v1 v4 v7 v6 v5). */
  function Hex(g: Grid, t: nat, r: nat): seq<nat>
    requires Valid(g)
  {
    var v := Corners(g, t, r);
    [v[0], v[3], v[2], v[1], v[4], v[7], v[6], v[5]]
  }

  /** A cell position: angular step below n_theta, radial step below n_r. */
  predicate IsCell(g: Grid, t: nat, r: nat) {
    t < g.nTheta && r < g.nR
  }

  /** Every entry of every tuple names a vertex of the list. */
  predicate AllWithin(tuples: seq<seq<nat>>, bound: nat) {
    forall k, j :: 0 <= k < |tuples| && 0 <= j < |tuples[k]| ==> tuples[k][j] < bound
  }

  /** The blocks in the order they are written: winding goes up the radius
      first, then across the angle, on the bottom layer, then the same on the
      top layer; each top corner sits exactly one layer stride above the
      bottom corner it is paired with; and every corner is a vertex. */
  lemma HexShape(g: Grid, t: nat, r: nat)
    requires Valid(g) && IsCell(g, t, r)
    ensures |Hex(g, t, r)| == 8
    ensures forall j :: 0 <= j < 8 ==> Hex(g, t, r)[j] < VertexCount(g)
    ensures forall j :: 0 <= j < 4 ==> Hex(g, t, r)[j + 4] == Hex(g, t, r)[j] + LayerStride(g)
    ensures Decode(g, Hex(g, t, r)[0]) == Key(0, t, r)
    ensures Decode(g, Hex(g, t, r)[1]) == Key(0, t, r + 1)
    ensures Decode(g, Hex(g, t, r)[2]) == Key(0, NextAngle(g, t), r + 1)
    ensures Decode(g, Hex(g, t, r)[3]) == Key(0, NextAngle(g, t), r)
    ensures Decode(g, Hex(g, t, r)[4]) == Key(1, t, r)
    ensures Decode(g, Hex(g, t, r)[5]) == Key(1, t, r + 1)
    ensures Decode(g, Hex(g, t, r)[6]) == Key(1, NextAngle(g, t), r + 1)
    ensures Decode(g, Hex(g, t, r)[7]) == Key(1, NextAngle(g, t), r)
  {
    var n := NextAngle(g, t);
    DecodeIdx(g, 0, t, r);
    DecodeIdx(g, 0, t, r + 1);
    DecodeIdx(g, 0, n, r + 1);
    DecodeIdx(g, 0, n, r);
    DecodeIdx(g, 1, t, r);
    DecodeIdx(g, 1, t, r + 1);
    DecodeIdx(g, 1, n, r + 1);
    DecodeIdx(g, 1, n, r);
  }

  /** The eight corners of a block are eight different vertices exactly when
      the next angle differs from the current one: always in a wedge, and in
      a full revolution only when there are at least two angular divisions
      (with one, (t + 1) % 1 == t and the block collapses). */
  lemma HexCornersDistinct(g: Grid, t: nat, r: nat)
    requires Valid(g) && IsCell(g, t, r)
    ensures (forall i, j :: 0 <= i < j < 8 ==> Hex(g, t, r)[i] != Hex(g, t, r)[j])
        <==> (g.mode == Wedge || g.nTheta >= 2)
  {
    HexShape(g, t, r);
    var h := Hex(g, t, r);
    if g.mode == FullRevolution && g.nTheta == 1 {
      assert h[0] == h[3];
    } else {
      assert NextAngle(g, t) != t;
      forall i, j | 0 <= i < j < 8
        ensures h[i] != h[j]
      {
        assert Decode(g, h[i]) != Decode(g, h[j]);
      }
    }
  }

  /** Neighbouring cells share vertices rather than duplicating them: the
      radially outer face of (t, r) is the inner face of (t, r + 1), and the
      far angular face of (t, r) is the near face of (NextAngle(t), r). In a
      full revolution the last angular column closes onto column 0. */
  lemma SharedFaces(g: Grid, t: nat, r: nat)
    requires Valid(g) && IsCell(g, t, r)
    ensures r + 1 < g.nR ==>
              var a, b := Corners(g, t, r), Corners(g, t, r + 1);
              a[3] == b[0] && a[2] == b[1] && a[7] == b[4] && a[6] == b[5]
    ensures var a, b := Corners(g, t, r), Corners(g, NextAngle(g, t), r);
            a[1] == b[0] && a[2] == b[3] && a[5] == b[4] && a[6] == b[7]
    ensures g.mode == FullRevolution && t + 1 == g.nTheta ==>
              var a, b := Corners(g, t, r), Corners(g, 0, r);
              a[1] == b[0] && a[2] == b[3] && a[5] == b[4] && a[6] == b[7]
  {
  }

  /** No block is written twice: two cells give the same block exactly when
      they are the same cell (their first corners already differ). */
  lemma HexDistinct(g: Grid, t1: nat, r1: nat, t2: nat, r2: nat)
    requires Valid(g) && IsCell(g, t1, r1) && IsCell(g, t2, r2)
    ensures Hex(g, t1, r1) == Hex(g, t2, r2) <==> t1 == t2 && r1 == r2
  {
    HexShape(g, t1, r1);
    HexShape(g, t2, r2);
  }

  /** Blocks so far are the cells in loop order, each eight vertices. */
  ghost predicate BlockPrefix(g: Grid, blocks: seq<seq<nat>>)
    requires Valid(g)
  {
    && (forall k :: 0 <= k < |blocks| ==> 0 < g.nR && blocks[k] == Hex(g, k / g.nR, k % g.nR))
    && (forall k :: 0 <= k < |blocks| ==> |blocks[k]| == 8)
    && AllWithin(blocks, VertexCount(g))
  }

  /** The radial loop of the block section at angular step t. */
  method AppendBlockRow(g: Grid, t: nat, blocks0: seq<seq<nat>>, count0: nat)
    returns (blocks: seq<seq<nat>>, cellCount: nat)
    requires Valid(g) && t < g.nTheta
    requires |blocks0| == count0 == t * g.nR && BlockPrefix(g, blocks0)
    ensures |blocks| == cellCount == (t + 1) * g.nR && BlockPrefix(g, blocks)
  {
    blocks, cellCount := blocks0, count0;
    var r := 0;
    while r < g.nR
      invariant r <= g.nR
      invariant |blocks| == cellCount == t * g.nR + r
      invariant BlockPrefix(g, blocks)
    {
      DivModUnique(|blocks|, g.nR, t, r);
      HexShape(g, t, r);
      blocks := blocks + [Hex(g, t, r)];
      cellCount := cellCount + 1;
      r := r + 1;
    }
  }

  /** The block loops: angular steps outer, radial steps inner, counting
      cells as they are written. */
  method GenerateBlocks(g: Grid) returns (blocks: seq<seq<nat>>, cellCount: nat)
    requires Valid(g)
    ensures cellCount == g.nTheta * g.nR == |blocks|
    ensures forall t: nat, r: nat :: IsCell(g, t, r) ==>
              t * g.nR + r < |blocks| && blocks[t * g.nR + r] == Hex(g, t, r)
    ensures forall k :: 0 <= k < |blocks| ==> |blocks[k]| == 8
    ensures AllWithin(blocks, VertexCount(g))
  {
    blocks, cellCount := [], 0;
    var t := 0;
    while t < g.nTheta
      invariant t <= g.nTheta
      invariant |blocks| == cellCount == t * g.nR
      invariant BlockPrefix(g, blocks)
    {
      blocks, cellCount := AppendBlockRow(g, t, blocks, cellCount);
      t := t + 1;
    }
    forall t: nat, r: nat | IsCell(g, t, r)
      ensures t * g.nR + r < |blocks| && blocks[t * g.nR + r] == Hex(g, t, r)
    {
      RowMajorBound(t, r, g.nTheta, g.nR);
      DivModUnique(t * g.nR + r, g.nR, t, r);
    }
  }
}
