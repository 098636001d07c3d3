/** The marching-cubes extractor as a specification: what one unit cube of the density
    field contributes to the mesh (corner fetch, classification, edge interpolation,
    triangle emission), and the mesh of the whole chunk as the concatenation of the cubes'
    contributions in the row-major order the extraction loops visit them. */
module MarchingCubes {
  import opened Geometry
  import opened Grid

  datatype Option<T> = None | Some(value: T)

  /** Density at which the surface is drawn: below is inside (solid), at or above is outside. */
  const Isolevel: real := 0.0
  /** Edges whose endpoint densities differ by at most this are interpolated at their midpoint. */
  const Epsilon: real := 0.00001
  /** The density a corner outside the field reads as. */
  const Sentinel: real := 1.0
  /** Terminates each row of the triangle table. */
  const TriSentinel: int := -1
  /** Every emitted position is stretched by 2 horizontally. */
  const MeshScale: Vec3 := Vec3(2.0, 1.0, 2.0)

  /** Offsets of the 8 cube corners from the cube's origin, in corner-number order. */
  const CornerOffsets: seq<(int, int, int)> :=
    [(0, 0, 0), (1, 0, 0), (1, 1, 0), (0, 1, 0),
     (0, 0, 1), (1, 0, 1), (1, 1, 1), (0, 1, 1)]

  /** The two corners joined by each of the 12 cube edges. */
  const EdgeCorners: seq<(int, int)> :=
    [(0, 1), (1, 2), (2, 3), (3, 0),
     (4, 5), (5, 6), (6, 7), (7, 4),
     (0, 4), (1, 5), (2, 6), (3, 7)]

  /** The two lookup tables: the 12-bit crossing-edge mask per cube configuration, and per
      configuration a row of edge numbers, grouped in triples and ended by -1. */
  datatype Tables = Tables(edgeTable: seq<bv16>, triTable: seq<seq<int>>)

  /** The flat face normal of triangle (v0, v1, v2), normalize(cross(v2 - v0, v1 - v0)). */
  type NormalFn = (Vec3, Vec3, Vec3) -> Vec3

  // ----- Corner fetch -----

  /** The density read for corner (px, py, pz): the field's value inside the chunk,
      the sentinel 1.0 anywhere else. */
  function CornerValue(d: seq<real>, px: int, py: int, pz: int): real
    requires |d| == CellCount
  {
    if InBounds(px, py, pz) then d[Index3D(px, py, pz)] else Sentinel
  }

  /** The 8 corner densities of the cube at (x, y, z). */
  function CubeValues(d: seq<real>, x: int, y: int, z: int): (vs: seq<real>)
    requires |d| == CellCount
    ensures |vs| == 8
  {
    seq(8, i requires 0 <= i < 8 =>
      CornerValue(d, x + CornerOffsets[i].0, y + CornerOffsets[i].1, z + CornerOffsets[i].2))
  }

  /** The 8 corner positions of the cube at (x, y, z). */
  function CubePositions(x: int, y: int, z: int): (ps: seq<Vec3>)
    ensures |ps| == 8
  {
    seq(8, i requires 0 <= i < 8 =>
      Vec3((x + CornerOffsets[i].0) as real, (y + CornerOffsets[i].1) as real, (z + CornerOffsets[i].2) as real))
  }

  /** Every corner of a cube the extraction visits lies inside the field, so it reads the
      field itself and the sentinel is never used. */
  lemma VisitedCornersInBounds(d: seq<real>, x: int, y: int, z: int, i: int)
    requires |d| == CellCount
    requires 0 <= x < Size - 1 && 0 <= y < Height - 1 && 0 <= z < Size - 1 && 0 <= i < 8
    ensures InBounds(x + CornerOffsets[i].0, y + CornerOffsets[i].1, z + CornerOffsets[i].2)
    ensures CubeValues(d, x, y, z)[i]
            == d[Index3D(x + CornerOffsets[i].0, y + CornerOffsets[i].1, z + CornerOffsets[i].2)]
  {
  }

  /** A corner on the far side of the field reads the sentinel, never a neighbouring slot. */
  lemma OutsideCornerReadsSentinel(d: seq<real>, x: int, y: int, z: int, i: int)
    requires |d| == CellCount && 0 <= i < 8
    requires !InBounds(x + CornerOffsets[i].0, y + CornerOffsets[i].1, z + CornerOffsets[i].2)
    ensures CubeValues(d, x, y, z)[i] == Sentinel
  {
  }

  // ----- Classification -----

  /** Bit i of a cube configuration: corner i is inside the surface. */
  predicate CornerInside(cubeIndex: bv8, i: nat)
    requires i < 8
  {
    cubeIndex & ((1 as bv8) << i) != 0
  }

  /** The configuration built from corners 0 .. k-1 only. */
  function CubeIndexFrom(values: seq<real>, k: nat): bv8
    requires k <= 8 <= |values|
  {
    if k == 0 then 0
    else CubeIndexFrom(values, k - 1) | (if values[k - 1] < Isolevel then (1 as bv8) << (k - 1) else 0)
  }

  /** The 8-bit configuration of a cube: bit i set for each corner i below the isolevel. */
  function CubeIndexOf(values: seq<real>): bv8
    requires |values| == 8
  {
    CubeIndexFrom(values, 8)
  }

  /** Bit i of the configuration built from corners 0 .. k-1 is set exactly when i < k and
      corner i is below the isolevel. */
  lemma {:induction false} CubeIndexFromBit(values: seq<real>, k: nat, i: nat)
    requires k <= 8 <= |values| && i < 8
    ensures CornerInside(CubeIndexFrom(values, k), i) <==> i < k && values[i] < Isolevel
  {
    if k > 0 {
      CubeIndexFromBit(values, k - 1, i);
      var prev := CubeIndexFrom(values, k - 1);
      if values[k - 1] < Isolevel {
        var add: bv8 := (1 as bv8) << (k - 1);
        assert CubeIndexFrom(values, k) == prev | add;
        OrBit(prev, add, i);
        SingleBit(k - 1, i);
      } else {
        assert CubeIndexFrom(values, k) == prev | 0;
        OrBit(prev, 0, i);
        ZeroBit(i);
      }
    }
  }

  lemma OrBit(p: bv8, q: bv8, i: nat)
    requires i < 8
    ensures CornerInside(p | q, i) <==> CornerInside(p, i) || CornerInside(q, i)
  {
  }

  lemma ZeroBit(i: nat)
    requires i < 8
    ensures !CornerInside(0, i)
  {
  }

  lemma SingleBit(a: nat, i: nat)
    requires a < 8 && i < 8
    ensures CornerInside((1 as bv8) << a, i) <==> a == i
  {
  }

  /** Classification: bit i of the configuration is set exactly when corner i's density is
      strictly below the isolevel (the configuration lies in [0, 255] by its 8-bit type). */
  lemma CubeIndexBits(values: seq<real>)
    requires |values| == 8
    ensures forall i: nat :: i < 8 ==> (CornerInside(CubeIndexOf(values), i) <==> values[i] < Isolevel)
  {
    forall i: nat | i < 8
      ensures CornerInside(CubeIndexOf(values), i) <==> values[i] < Isolevel
    {
      CubeIndexFromBit(values, 8, i);
    }
  }

  /** A cube with no corner below the isolevel has configuration 0. */
  lemma {:induction false} NoInsideCornerIsConfigZero(values: seq<real>, k: nat)
    requires k <= 8 <= |values|
    requires forall i :: 0 <= i < k ==> values[i] >= Isolevel
    ensures CubeIndexFrom(values, k) == 0
  {
    if k > 0 {
      NoInsideCornerIsConfigZero(values, k - 1);
    }
  }

  // ----- Edge interpolation -----

  /** Edge i of the 12 is marked as crossing in mask. */
  predicate EdgeActive(mask: bv16, i: nat)
    requires i < 12
  {
    mask & ((1 as bv16) << i) != 0
  }

  /** The interpolation parameter along an edge whose endpoint densities are val0 and val1. */
  function Mu(val0: real, val1: real): (mu: real)
    ensures 0.0 <= mu <= 1.0
  {
    var denom := val1 - val0;
    if Abs(denom) > Epsilon then
      GlmClampInRange((Isolevel - val0) / denom, 0.0, 1.0);
      GlmClamp((Isolevel - val0) / denom, 0.0, 1.0)
    else
      0.5
  }

  /** A degenerate edge (endpoint densities within 1e-5) is cut at its midpoint. */
  lemma MuDegenerate(val0: real, val1: real)
    requires Abs(val1 - val0) <= Epsilon
    ensures Mu(val0, val1) == 0.5
  {
  }

  /** On an edge whose endpoints lie on opposite sides of the isolevel and whose densities are
      not degenerate, Mu is exactly where the linear interpolation of the densities meets the
      isolevel (the clamp then changes nothing). */
  lemma MuAtCrossing(val0: real, val1: real)
    requires (val0 < Isolevel <= val1) || (val1 < Isolevel <= val0)
    requires Abs(val1 - val0) > Epsilon
    ensures val0 + Mu(val0, val1) * (val1 - val0) == Isolevel
  {
    var denom := val1 - val0;
    var ratio := (Isolevel - val0) / denom;
    assert ratio * denom == Isolevel - val0;
    if val0 < Isolevel {
      RatioInUnit(Isolevel - val0, denom);
    } else {
      RatioInUnit(val0 - Isolevel, -denom);
      assert ratio == (val0 - Isolevel) / -denom;
    }
    GlmClampInRange(ratio, 0.0, 1.0);
  }

  lemma RatioInUnit(a: real, b: real)
    requires 0.0 <= a <= b && b > 0.0
    ensures 0.0 <= a / b <= 1.0
  {
    var r := a / b;
    assert r * b == a;
    assert (1.0 - r) * b == b - a;
  }

  /** The point at parameter mu along the edge from p0 to p1. */
  function EdgePoint(p0: Vec3, p1: Vec3, mu: real): Vec3 {
    Add(p0, Times(mu, Sub(p1, p0)))
  }

  lemma ScaledStepBetween(a: real, b: real, mu: real)
    requires 0.0 <= mu <= 1.0
    ensures Between(a, a + mu * (b - a), b)
  {
    var step := mu * (b - a);
    assert (b - a) - step == (1.0 - mu) * (b - a);
    if a <= b {
      MulNonneg(mu, b - a);
      MulNonneg(1.0 - mu, b - a);
    } else {
      MulNonneg(mu, a - b);
      MulNonneg(1.0 - mu, a - b);
    }
  }

  lemma MulNonneg(p: real, q: real)
    requires p >= 0.0 && q >= 0.0
    ensures p * q >= 0.0
  {
  }

  /** Interpolation bounds: with mu in [0, 1] the edge point lies on the segment p0..p1
      (coordinate by coordinate, between its endpoints). */
  lemma EdgePointOnSegment(p0: Vec3, p1: Vec3, mu: real)
    requires 0.0 <= mu <= 1.0
    ensures InSegmentBox(p0, EdgePoint(p0, p1, mu), p1)
  {
    ScaledStepBetween(p0.x, p1.x, mu);
    ScaledStepBetween(p0.y, p1.y, mu);
    ScaledStepBetween(p0.z, p1.z, mu);
  }

  /** The interpolated crossing point of edge i of a cube. */
  function EdgeVertex(values: seq<real>, positions: seq<Vec3>, i: int): Vec3
    requires |values| == 8 && |positions| == 8 && 0 <= i < 12
  {
    var v0 := EdgeCorners[i].0;
    var v1 := EdgeCorners[i].1;
    EdgePoint(positions[v0], positions[v1], Mu(values[v0], values[v1]))
  }

  /** The 12 edge slots of a cube: the crossing point for each edge marked in mask, and
      nothing (a slot left unwritten) for the others. */
  function EdgePoints(mask: bv16, values: seq<real>, positions: seq<Vec3>): (es: seq<Option<Vec3>>)
    requires |values| == 8 && |positions| == 8
    ensures |es| == 12
  {
    seq(12, i requires 0 <= i < 12 =>
      if EdgeActive(mask, i) then Some(EdgeVertex(values, positions, i)) else None)
  }

  /** Every written edge slot lies on its edge, between the edge's two corners. */
  lemma EdgePointsOnSegments(mask: bv16, values: seq<real>, positions: seq<Vec3>)
    requires |values| == 8 && |positions| == 8
    ensures var es := EdgePoints(mask, values, positions);
      forall i :: 0 <= i < 12 && es[i].Some? ==>
        InSegmentBox(positions[EdgeCorners[i].0], es[i].value, positions[EdgeCorners[i].1])
  {
    forall i | 0 <= i < 12
      ensures InSegmentBox(positions[EdgeCorners[i].0], EdgeVertex(values, positions, i), positions[EdgeCorners[i].1])
    {
      var v0 := EdgeCorners[i].0;
      var v1 := EdgeCorners[i].1;
      EdgePointOnSegment(positions[v0], positions[v1], Mu(values[v0], values[v1]));
    }
  }

  // ----- Triangle table rows -----

  /** Position of the first -1 at or after i, or |row| if there is none. */
  function SentinelFrom(row: seq<int>, i: nat): (k: nat)
    requires i <= |row|
    ensures i <= k <= |row|
    ensures k < |row| ==> row[k] == TriSentinel
    ensures forall j :: i <= j < k ==> row[j] != TriSentinel
    decreases |row| - i
  {
    if i == |row| then |row|
    else if row[i] == TriSentinel then i
    else SentinelFrom(row, i + 1)
  }

  /** Number of entries of a row before its terminating -1. */
  function FirstSentinel(row: seq<int>): nat {
    SentinelFrom(row, 0)
  }

  /** What the emission loop demands of one table row: it is terminated, the terminator falls
      at a multiple of 3 (the loop tests for -1 only at the start of each triple), and every
      edge number before it names one of the 12 edges and is marked crossing in mask, so its
      edge slot has been written. */
  predicate RowConsistent(mask: bv16, row: seq<int>) {
    var k := FirstSentinel(row);
    k < |row| && k % 3 == 0 &&
    forall j :: 0 <= j < k ==> 0 <= row[j] < 12 && EdgeActive(mask, row[j])
  }

  /** The tables' consistency: 256 configurations, and for every configuration with a
      non-empty edge mask, a triangle row consistent with that mask. */
  predicate TablesConsistent(t: Tables) {
    |t.edgeTable| == 256 && |t.triTable| == 256 &&
    forall c :: 0 <= c < 256 && t.edgeTable[c] != 0 ==> RowConsistent(t.edgeTable[c], t.triTable[c])
  }

  /** Two multiples of 3, the first below the second, are at least a triple apart. */
  lemma NextTriple(i: int, k: int)
    requires i % 3 == 0 && k % 3 == 0 && i < k
    ensures i + 3 <= k && (i + 3) % 3 == 0
  {
  }

  /** A row is readable against a set of edge slots: terminated at a multiple of 3, and every
      edge number before the terminator names a written slot. */
  predicate RowReadable(row: seq<int>, edges: seq<Option<Vec3>>) {
    var k := FirstSentinel(row);
    k < |row| && k % 3 == 0 &&
    forall j :: 0 <= j < k ==> 0 <= row[j] < |edges| && edges[row[j]].Some?
  }

  lemma ConsistentRowReadable(mask: bv16, row: seq<int>, values: seq<real>, positions: seq<Vec3>)
    requires |values| == 8 && |positions| == 8
    requires RowConsistent(mask, row)
    ensures RowReadable(row, EdgePoints(mask, values, positions))
  {
  }

  // ----- Triangle emission -----

  /** The three vertices of one emitted triangle: positions stretched by MeshScale, one shared
      normal computed from the unscaled points, texture coordinate zero. */
  function Triangle(v0: Vec3, v1: Vec3, v2: Vec3, normal: NormalFn): seq<Vertex> {
    var n := normal(v0, v1, v2);
    [Vertex(Mul(v0, MeshScale), n, ZeroUV),
     Vertex(Mul(v1, MeshScale), n, ZeroUV),
     Vertex(Mul(v2, MeshScale), n, ZeroUV)]
  }

  /** The triangles of a row from entry i up to its terminator. */
  function TrianglesFrom(row: seq<int>, i: nat, edges: seq<Option<Vec3>>, normal: NormalFn): seq<Vertex>
    requires RowReadable(row, edges)
    requires i % 3 == 0 && i <= FirstSentinel(row)
    decreases FirstSentinel(row) - i
  {
    if row[i] == TriSentinel then []
    else
      Triangle(edges[row[i]].value, edges[row[i + 1]].value, edges[row[i + 2]].value, normal)
      + TrianglesFrom(row, i + 3, edges, normal)
  }

  /** Every vertex has a zero texture coordinate, the vertices come in triples, and the three
      vertices of each triple share one normal. */
  predicate TriangleSoup(vs: seq<Vertex>) {
    |vs| % 3 == 0 &&
    forall j :: 0 <= j < |vs| ==> vs[j].uv == ZeroUV && vs[j].normal == vs[j - j % 3].normal
  }

  lemma SoupConcat(a: seq<Vertex>, b: seq<Vertex>)
    requires TriangleSoup(a) && TriangleSoup(b)
    ensures TriangleSoup(a + b)
  {
    var ab := a + b;
    forall j | 0 <= j < |ab|
      ensures ab[j].uv == ZeroUV && ab[j].normal == ab[j - j % 3].normal
    {
      if j >= |a| {
        var m := |a| / 3;
        assert |a| == 3 * m;
        var j' := j - |a|;
        assert j' % 3 == j % 3 by {
          assert j == j' + 3 * m;
        }
        assert ab[j] == b[j'];
        assert ab[j - j % 3] == b[j' - j' % 3];
      }
    }
  }

  /** One step of the emission loop: an entry that is not the terminator starts a whole
      triple, and the row's triangles from there are that triangle followed by the rest. */
  lemma TrianglesFromStep(row: seq<int>, i: nat, edges: seq<Option<Vec3>>, normal: NormalFn)
    requires RowReadable(row, edges)
    requires i % 3 == 0 && i <= FirstSentinel(row) && row[i] != TriSentinel
    ensures i + 3 <= FirstSentinel(row) && (i + 3) % 3 == 0
    ensures TrianglesFrom(row, i, edges, normal)
            == Triangle(edges[row[i]].value, edges[row[i + 1]].value, edges[row[i + 2]].value, normal)
               + TrianglesFrom(row, i + 3, edges, normal)
  {
    NextTriple(i, FirstSentinel(row));
  }

  /** The triangles of a row from entry i: exactly one vertex per remaining row entry (three per
      triple), each at the scaled crossing point of the edge that entry names, in row order. */
  lemma {:induction false} TrianglesFromShape(row: seq<int>, i: nat, edges: seq<Option<Vec3>>, normal: NormalFn)
    requires RowReadable(row, edges)
    requires i % 3 == 0 && i <= FirstSentinel(row)
    ensures var vs := TrianglesFrom(row, i, edges, normal);
            && |vs| == FirstSentinel(row) - i
            && (forall j :: 0 <= j < |vs| ==> vs[j].position == Mul(edges[row[i + j]].value, MeshScale))
    decreases FirstSentinel(row) - i
  {
    if row[i] != TriSentinel {
      var tri := Triangle(edges[row[i]].value, edges[row[i + 1]].value, edges[row[i + 2]].value, normal);
      var rest := TrianglesFrom(row, i + 3, edges, normal);
      TrianglesFromShape(row, i + 3, edges, normal);
      var vs := tri + rest;
      assert TrianglesFrom(row, i, edges, normal) == vs;
      forall j | 0 <= j < |vs|
        ensures vs[j].position == Mul(edges[row[i + j]].value, MeshScale)
      {
        if j >= 3 {
          assert vs[j] == rest[j - 3];
        }
      }
    }
  }

  /** The triangles of a row form a triangle soup. */
  lemma {:induction false} TrianglesFromSoup(row: seq<int>, i: nat, edges: seq<Option<Vec3>>, normal: NormalFn)
    requires RowReadable(row, edges)
    requires i % 3 == 0 && i <= FirstSentinel(row)
    ensures TriangleSoup(TrianglesFrom(row, i, edges, normal))
    decreases FirstSentinel(row) - i
  {
    if row[i] != TriSentinel {
      var tri := Triangle(edges[row[i]].value, edges[row[i + 1]].value, edges[row[i + 2]].value, normal);
      var rest := TrianglesFrom(row, i + 3, edges, normal);
      TrianglesFromSoup(row, i + 3, edges, normal);
      assert TriangleSoup(tri);
      SoupConcat(tri, rest);
      assert TrianglesFrom(row, i, edges, normal) == tri + rest;
    }
  }

  // ----- One cube -----

  /** What the cube at (x, y, z) contributes to the mesh: nothing when its configuration's edge
      mask is empty, otherwise the triangles of its table row over its interpolated edge points. */
  function CubeMesh(d: seq<real>, x: int, y: int, z: int, t: Tables, normal: NormalFn): seq<Vertex>
    requires |d| == CellCount && TablesConsistent(t)
  {
    var values := CubeValues(d, x, y, z);
    var c := CubeIndexOf(values) as int;
    var mask := t.edgeTable[c];
    if mask == 0 then []
    else
      var edges := EdgePoints(mask, values, CubePositions(x, y, z));
      ConsistentRowReadable(mask, t.triTable[c], values, CubePositions(x, y, z));
      TrianglesFrom(t.triTable[c], 0, edges, normal)
  }

  /** Triangle emission per cube: a cube whose edge mask is empty emits nothing; otherwise it
      emits three vertices per triple of its row before the -1. */
  lemma CubeMeshShape(d: seq<real>, x: int, y: int, z: int, t: Tables, normal: NormalFn)
    requires |d| == CellCount && TablesConsistent(t)
    ensures var c := CubeIndexOf(CubeValues(d, x, y, z)) as int;
            var vs := CubeMesh(d, x, y, z, t, normal);
            && (t.edgeTable[c] == 0 ==> vs == [])
            && (t.edgeTable[c] != 0 ==> |vs| == FirstSentinel(t.triTable[c]))
  {
    var values := CubeValues(d, x, y, z);
    var c := CubeIndexOf(values) as int;
    var mask := t.edgeTable[c];
    if mask != 0 {
      ConsistentRowReadable(mask, t.triTable[c], values, CubePositions(x, y, z));
      TrianglesFromShape(t.triTable[c], 0, EdgePoints(mask, values, CubePositions(x, y, z)), normal);
    }
  }

  /** What one cube emits is a triangle soup. */
  lemma CubeMeshIsSoup(d: seq<real>, x: int, y: int, z: int, t: Tables, normal: NormalFn)
    requires |d| == CellCount && TablesConsistent(t)
    ensures TriangleSoup(CubeMesh(d, x, y, z, t, normal))
  {
    var values := CubeValues(d, x, y, z);
    var c := CubeIndexOf(values) as int;
    var mask := t.edgeTable[c];
    if mask != 0 {
      ConsistentRowReadable(mask, t.triTable[c], values, CubePositions(x, y, z));
      TrianglesFromSoup(t.triTable[c], 0, EdgePoints(mask, values, CubePositions(x, y, z)), normal);
    }
  }

  /** Each crossing point of a cube lies in the cube's unit box. */
  lemma EdgeVertexInCube(values: seq<real>, x: int, y: int, z: int, i: int)
    requires |values| == 8 && 0 <= i < 12
    ensures InBox(EdgeVertex(values, CubePositions(x, y, z), i),
                  Vec3(x as real, y as real, z as real),
                  Vec3((x + 1) as real, (y + 1) as real, (z + 1) as real))
  {
    var ps := CubePositions(x, y, z);
    var v0 := EdgeCorners[i].0;
    var v1 := EdgeCorners[i].1;
    EdgePointOnSegment(ps[v0], ps[v1], Mu(values[v0], values[v1]));
  }

  /** Every vertex a cube emits lies in that cube's box, stretched by MeshScale. */
  lemma CubeMeshInCube(d: seq<real>, x: int, y: int, z: int, t: Tables, normal: NormalFn)
    requires |d| == CellCount && TablesConsistent(t)
    ensures var vs := CubeMesh(d, x, y, z, t, normal);
      forall j :: 0 <= j < |vs| ==>
      InBox(vs[j].position,
            Mul(Vec3(x as real, y as real, z as real), MeshScale),
            Mul(Vec3((x + 1) as real, (y + 1) as real, (z + 1) as real), MeshScale))
  {
    var values := CubeValues(d, x, y, z);
    var c := CubeIndexOf(values) as int;
    var mask := t.edgeTable[c];
    if mask != 0 {
      var ps := CubePositions(x, y, z);
      var row := t.triTable[c];
      var edges := EdgePoints(mask, values, ps);
      ConsistentRowReadable(mask, row, values, ps);
      TrianglesFromShape(row, 0, edges, normal);
      var vs := TrianglesFrom(row, 0, edges, normal);
      forall j | 0 <= j < |vs|
        ensures InBox(vs[j].position,
                      Mul(Vec3(x as real, y as real, z as real), MeshScale),
                      Mul(Vec3((x + 1) as real, (y + 1) as real, (z + 1) as real), MeshScale))
      {
        EdgeVertexInCube(values, x, y, z, row[j]);
      }
    }
  }

  // ----- The whole chunk, in traversal order -----

  /** What each cube contributes to the mesh, as a function of the cube's coordinates. The
      traversal-order definitions below are stated over any such function, so that their
      structural properties do not depend on how one cube is processed. */
  type CubeFn = (int, int, int) -> seq<Vertex>

  /** The per-cube contributions of field d under tables t. */
  function CubeMeshes(d: seq<real>, t: Tables, normal: NormalFn): CubeFn
    requires |d| == CellCount && TablesConsistent(t)
  {
    (x, y, z) => CubeMesh(d, x, y, z, t, normal)
  }

  /** Cubes (x, y, 0) .. (x, y, z-1). */
  function RowMesh(cube: CubeFn, x: int, y: int, z: nat): seq<Vertex> {
    if z == 0 then [] else RowMesh(cube, x, y, z - 1) + cube(x, y, z - 1)
  }

  /** Full rows (x, 0, ·) .. (x, y-1, ·). */
  function LayerMesh(cube: CubeFn, x: int, y: nat): seq<Vertex> {
    if y == 0 then [] else LayerMesh(cube, x, y - 1) + RowMesh(cube, x, y - 1, Size - 1)
  }

  /** Full layers 0 .. x-1. */
  function SlabMesh(cube: CubeFn, x: nat): seq<Vertex> {
    if x == 0 then [] else SlabMesh(cube, x - 1) + LayerMesh(cube, x - 1, Height - 1)
  }

  /** The chunk's mesh: every cube (x, y, z) with x, z < Size - 1 and y < Height - 1, x slowest. */
  function Mesh(d: seq<real>, t: Tables, normal: NormalFn): seq<Vertex>
    requires |d| == CellCount && TablesConsistent(t)
  {
    SlabMesh(CubeMeshes(d, t, normal), Size - 1)
  }

  /** Appending cube (x, y, z) to a prefix ending in the row up to z extends it to the row up
      to z + 1. */
  lemma RowMeshAppend(cube: CubeFn, x: int, y: int, z: nat,
                      prefix: seq<Vertex>, before: seq<Vertex>, after: seq<Vertex>)
    requires before == prefix + RowMesh(cube, x, y, z)
    requires after == before + cube(x, y, z)
    ensures after == prefix + RowMesh(cube, x, y, z + 1)
  {
  }

  /** Appending a full row to a prefix ending in the layer up to y extends it to the layer up
      to y + 1. */
  lemma LayerMeshAppend(cube: CubeFn, x: int, y: nat,
                        prefix: seq<Vertex>, before: seq<Vertex>, after: seq<Vertex>)
    requires before == prefix + LayerMesh(cube, x, y)
    requires after == before + RowMesh(cube, x, y, Size - 1)
    ensures after == prefix + LayerMesh(cube, x, y + 1)
  {
  }

  /** Appending a full layer to a prefix ending in the slab up to x extends it to the slab up
      to x + 1. */
  lemma SlabMeshAppend(cube: CubeFn, x: nat,
                       prefix: seq<Vertex>, before: seq<Vertex>, after: seq<Vertex>)
    requires before == prefix + SlabMesh(cube, x)
    requires after == before + LayerMesh(cube, x, Height - 1)
    ensures after == prefix + SlabMesh(cube, x + 1)
  {
  }

  // ----- Properties of the whole mesh -----

  /** Every cube contributes a triangle soup. */
  ghost predicate AllSoups(cube: CubeFn) {
    forall x, y, z :: TriangleSoup(cube(x, y, z))
  }

  lemma {:induction false} RowMeshSoup(cube: CubeFn, x: int, y: int, z: nat)
    requires AllSoups(cube)
    ensures TriangleSoup(RowMesh(cube, x, y, z))
  {
    if z > 0 {
      RowMeshSoup(cube, x, y, z - 1);
      SoupConcat(RowMesh(cube, x, y, z - 1), cube(x, y, z - 1));
    }
  }

  lemma {:induction false} LayerMeshSoup(cube: CubeFn, x: int, y: nat)
    requires AllSoups(cube)
    ensures TriangleSoup(LayerMesh(cube, x, y))
  {
    if y > 0 {
      LayerMeshSoup(cube, x, y - 1);
      RowMeshSoup(cube, x, y - 1, Size - 1);
      SoupConcat(LayerMesh(cube, x, y - 1), RowMesh(cube, x, y - 1, Size - 1));
    }
  }

  lemma {:induction false} SlabMeshSoup(cube: CubeFn, x: nat)
    requires AllSoups(cube)
    ensures TriangleSoup(SlabMesh(cube, x))
  {
    if x > 0 {
      SlabMeshSoup(cube, x - 1);
      LayerMeshSoup(cube, x - 1, Height - 1);
      SoupConcat(SlabMesh(cube, x - 1), LayerMesh(cube, x - 1, Height - 1));
    }
  }

  /** The chunk's mesh is a triangle soup: its length is a multiple of 3, every texture
      coordinate is zero and the three vertices of each triangle share one normal. */
  lemma MeshIsTriangleSoup(d: seq<real>, t: Tables, normal: NormalFn)
    requires |d| == CellCount && TablesConsistent(t)
    ensures TriangleSoup(Mesh(d, t, normal))
    ensures |Mesh(d, t, normal)| % 3 == 0
  {
    var cube := CubeMeshes(d, t, normal);
    forall x, y, z
      ensures TriangleSoup(cube(x, y, z))
    {
      CubeMeshIsSoup(d, x, y, z, t, normal);
    }
    SlabMeshSoup(cube, Size - 1);
  }

  /** The box every mesh vertex lies in: the visited cubes span [0, Size-1] x [0, Height-1] x
      [0, Size-1], stretched by MeshScale. */
  const ChunkLow: Vec3 := Vec3(0.0, 0.0, 0.0)
  const ChunkHigh: Vec3 := Mul(Vec3((Size - 1) as real, (Height - 1) as real, (Size - 1) as real), MeshScale)

  predicate AllInChunk(vs: seq<Vertex>) {
    forall j :: 0 <= j < |vs| ==> InBox(vs[j].position, ChunkLow, ChunkHigh)
  }

  lemma AllInChunkConcat(a: seq<Vertex>, b: seq<Vertex>)
    requires AllInChunk(a) && AllInChunk(b)
    ensures AllInChunk(a + b)
  {
    var ab := a + b;
    forall j | 0 <= j < |ab|
      ensures InBox(ab[j].position, ChunkLow, ChunkHigh)
    {
      if j >= |a| {
        assert ab[j] == b[j - |a|];
      }
    }
  }

  /** Every cube the traversal visits contributes only vertices inside the chunk's box. */
  predicate VisitedInChunk(cube: CubeFn) {
    forall x, y, z :: 0 <= x < Size - 1 && 0 <= y < Height - 1 && 0 <= z < Size - 1 ==>
      AllInChunk(cube(x, y, z))
  }

  lemma VisitedCubeInChunk(d: seq<real>, x: int, y: int, z: int, t: Tables, normal: NormalFn)
    requires |d| == CellCount && TablesConsistent(t)
    requires 0 <= x < Size - 1 && 0 <= y < Height - 1 && 0 <= z < Size - 1
    ensures AllInChunk(CubeMesh(d, x, y, z, t, normal))
  {
    CubeMeshInCube(d, x, y, z, t, normal);
  }

  lemma {:induction false} RowMeshInChunk(cube: CubeFn, x: int, y: int, z: nat)
    requires VisitedInChunk(cube)
    requires 0 <= x < Size - 1 && 0 <= y < Height - 1 && z <= Size - 1
    ensures AllInChunk(RowMesh(cube, x, y, z))
  {
    if z > 0 {
      RowMeshInChunk(cube, x, y, z - 1);
      AllInChunkConcat(RowMesh(cube, x, y, z - 1), cube(x, y, z - 1));
    }
  }

  lemma {:induction false} LayerMeshInChunk(cube: CubeFn, x: int, y: nat)
    requires VisitedInChunk(cube)
    requires 0 <= x < Size - 1 && y <= Height - 1
    ensures AllInChunk(LayerMesh(cube, x, y))
  {
    if y > 0 {
      LayerMeshInChunk(cube, x, y - 1);
      RowMeshInChunk(cube, x, y - 1, Size - 1);
      AllInChunkConcat(LayerMesh(cube, x, y - 1), RowMesh(cube, x, y - 1, Size - 1));
    }
  }

  lemma {:induction false} SlabMeshInChunk(cube: CubeFn, x: nat)
    requires VisitedInChunk(cube)
    requires x <= Size - 1
    ensures AllInChunk(SlabMesh(cube, x))
  {
    if x > 0 {
      SlabMeshInChunk(cube, x - 1);
      LayerMeshInChunk(cube, x - 1, Height - 1);
      AllInChunkConcat(SlabMesh(cube, x - 1), LayerMesh(cube, x - 1, Height - 1));
    }
  }

  /** Every vertex of the chunk's mesh lies inside the chunk's stretched box
      [0, 30] x [0, 255] x [0, 30]: interpolation never leaves the cube it works on. */
  lemma MeshInChunk(d: seq<real>, t: Tables, normal: NormalFn)
    requires |d| == CellCount && TablesConsistent(t)
    ensures AllInChunk(Mesh(d, t, normal))
  {
    var cube := CubeMeshes(d, t, normal);
    forall x, y, z | 0 <= x < Size - 1 && 0 <= y < Height - 1 && 0 <= z < Size - 1
      ensures AllInChunk(cube(x, y, z))
    {
      VisitedCubeInChunk(d, x, y, z, t, normal);
    }
    SlabMeshInChunk(cube, Size - 1);
  }

  /** A field with no density below the isolevel yields configuration 0 in every cube, and so
      no triangles when configuration 0 has an empty edge mask. */
  lemma AirCubeIsEmpty(d: seq<real>, x: int, y: int, z: int, t: Tables, normal: NormalFn)
    requires |d| == CellCount && TablesConsistent(t) && t.edgeTable[0] == 0
    requires forall i :: 0 <= i < |d| ==> d[i] >= Isolevel
    ensures CubeMesh(d, x, y, z, t, normal) == []
  {
    NoInsideCornerIsConfigZero(CubeValues(d, x, y, z), 8);
  }

  /** Every cube contributes nothing. */
  ghost predicate AllEmpty(cube: CubeFn) {
    forall x, y, z :: cube(x, y, z) == []
  }

  lemma {:induction false} EmptyRow(cube: CubeFn, x: int, y: int, z: nat)
    requires AllEmpty(cube)
    ensures RowMesh(cube, x, y, z) == []
  {
    if z > 0 {
      EmptyRow(cube, x, y, z - 1);
    }
  }

  lemma {:induction false} EmptyLayer(cube: CubeFn, x: int, y: nat)
    requires AllEmpty(cube)
    ensures LayerMesh(cube, x, y) == []
  {
    if y > 0 {
      EmptyLayer(cube, x, y - 1);
      EmptyRow(cube, x, y - 1, Size - 1);
    }
  }

  lemma {:induction false} EmptySlab(cube: CubeFn, x: nat)
    requires AllEmpty(cube)
    ensures SlabMesh(cube, x) == []
  {
    if x > 0 {
      EmptySlab(cube, x - 1);
      EmptyLayer(cube, x - 1, Height - 1);
    }
  }

  /** A field with no density below the isolevel (for instance +1.0 everywhere) produces an
      empty mesh, given that configuration 0 has an empty edge mask. */
  lemma AirFieldHasEmptyMesh(d: seq<real>, t: Tables, normal: NormalFn)
    requires |d| == CellCount && TablesConsistent(t) && t.edgeTable[0] == 0
    requires forall i :: 0 <= i < |d| ==> d[i] >= Isolevel
    ensures Mesh(d, t, normal) == []
  {
    var cube := CubeMeshes(d, t, normal);
    forall x, y, z
      ensures cube(x, y, z) == []
    {
      AirCubeIsEmpty(d, x, y, z, t, normal);
    }
    EmptySlab(cube, Size - 1);
  }
}
