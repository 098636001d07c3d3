/** One terrain chunk (class Terrain of src/object/terrain.h): a fixed-size density array
    filled slice by slice, a vertex list rebuilt by the marching-cubes loops, and the
    chunk's placement. Each loop is proved against the specification functions of the
    DensitySynth and MarchingCubes modules. */
module Chunk {
  import opened Geometry
  import opened Grid
  import opened DensitySynth
  import opened MarchingCubes

  /** Per-cube classification: corner i's bit is set when its density is below the isolevel. */
  method ClassifyCube(cubeValues: seq<real>) returns (cubeIndex: bv8)
    requires |cubeValues| == 8
    ensures cubeIndex == CubeIndexOf(cubeValues)
    ensures forall i: nat :: i < 8 ==> (CornerInside(cubeIndex, i) <==> cubeValues[i] < Isolevel)
  {
    cubeIndex := 0;
    for i := 0 to 8
      invariant cubeIndex == CubeIndexFrom(cubeValues, i)
    {
      if cubeValues[i] < Isolevel {
        cubeIndex := cubeIndex | ((1 as bv8) << i);
      }
    }
    CubeIndexBits(cubeValues);
  }

  /** The crossing point of edge i: the parameter mu is where the densities' linear
      interpolation meets the isolevel, clamped to [0, 1], or the midpoint when the two
      densities are within Epsilon of each other. */
  method InterpolateEdge(cubeValues: seq<real>, cubePositions: seq<Vec3>, i: int) returns (p: Vec3)
    requires |cubeValues| == 8 && |cubePositions| == 8 && 0 <= i < 12
    ensures p == EdgeVertex(cubeValues, cubePositions, i)
  {
    var v0 := EdgeCorners[i].0;
    var v1 := EdgeCorners[i].1;
    var val0 := cubeValues[v0];
    var val1 := cubeValues[v1];
    var p0 := cubePositions[v0];
    var p1 := cubePositions[v1];
    var denom := val1 - val0;
    var mu := 0.5;
    if Abs(denom) > Epsilon {
      mu := (Isolevel - val0) / denom;
      mu := GlmClamp(mu, 0.0, 1.0);
    }
    assert mu == Mu(val0, val1);
    p := Add(p0, Times(mu, Sub(p1, p0)));
  }

  /** Interpolates the crossing point of every edge marked in mask; unmarked slots stay unwritten. */
  method InterpolateEdges(mask: bv16, cubeValues: seq<real>, cubePositions: seq<Vec3>)
    returns (edgeVertices: seq<Option<Vec3>>)
    requires |cubeValues| == 8 && |cubePositions| == 8
    ensures edgeVertices == EdgePoints(mask, cubeValues, cubePositions)
  {
    ghost var expected := EdgePoints(mask, cubeValues, cubePositions);
    var slots := new Option<Vec3>[12](_ => None);
    for i := 0 to 12
      invariant forall j :: 0 <= j < i ==> slots[j] == expected[j]
      invariant forall j :: i <= j < 12 ==> slots[j] == None
    {
      if EdgeActive(mask, i) {
        var p := InterpolateEdge(cubeValues, cubePositions, i);
        slots[i] := Some(p);
      }
      assert slots[i] == expected[i];
    }
    edgeVertices := slots[..];
  }

  /** The columns of worker t of n: t times the per-thread share, one share wide, the last
      worker also taking the leftover columns. */
  method SliceBounds(t: nat, n: nat, chunkPerThread: int, leftover: int) returns (startX: int, endX: int)
    requires t < n && chunkPerThread == Size / n && leftover == Size % n
    ensures startX == SliceStart(t, n) && endX == SliceEnd(t, n)
  {
    startX := t * chunkPerThread;
    endX := startX + chunkPerThread;
    if t == n - 1 {
      endX := endX + leftover;
    }
  }

  /** Filling [lo, hi) of a field whose prefix [0, lo) is already filled, without touching
      anything else, leaves the prefix [0, hi) filled. */
  lemma PrefixExtend(before: seq<real>, after: seq<real>, field: seq<real>, lo: int, hi: int)
    requires |before| == |after| == |field| && 0 <= lo <= hi <= |field|
    requires forall i :: 0 <= i < lo ==> before[i] == field[i]
    requires forall i :: lo <= i < hi ==> after[i] == field[i]
    requires forall i :: 0 <= i < |field| && !(lo <= i < hi) ==> after[i] == before[i]
    ensures forall i :: 0 <= i < hi ==> after[i] == field[i]
  {
  }

  class Terrain {
    /** The density field, one slot per cell, addressed by Index3D. */
    const density: array<real>
    /** The chunk's mesh, three vertices per triangle. */
    var vertices: seq<Vertex>
    var position: Vec3
    var scale: Vec3
    var rotation: Vec3

    predicate Valid()
      reads this
    {
      density.Length == CellCount
    }

    /** A chunk with a zeroed field and no mesh. */
    constructor ()
      ensures Valid() && fresh(density)
      ensures forall i :: 0 <= i < CellCount ==> density[i] == 0.0
      ensures vertices == []
      ensures position == Vec3(0.0, 0.0, 0.0) && scale == Vec3(0.0, 0.0, 0.0) && rotation == Vec3(0.0, 0.0, 0.0)
    {
      density := new real[CellCount](_ => 0.0);
      vertices := [];
      position := Vec3(0.0, 0.0, 0.0);
      scale := Vec3(0.0, 0.0, 0.0);
      rotation := Vec3(0.0, 0.0, 0.0);
    }

    /** A new chunk at grid offset (xOffset, yOffset), generated. */
    static method CreateTerrain(xOffset: int, yOffset: int, seed: real, noise: NoiseLayer,
                                hardwareThreads: nat, tables: Tables, normal: NormalFn)
      returns (terrain: Terrain)
      requires TablesConsistent(tables)
      ensures fresh(terrain) && fresh(terrain.density) && terrain.Valid()
      ensures terrain.density[..] == Field(Sampler(noise, seed, xOffset, yOffset))
      ensures terrain.vertices == Mesh(Field(Sampler(noise, seed, xOffset, yOffset)), tables, normal)
      ensures terrain.scale == Vec3(1.0, 1.0, 1.0) && terrain.rotation == Vec3(0.0, 0.0, 0.0)
      ensures terrain.position == Vec3((xOffset * Size) as real, -10.0, (yOffset * Size) as real)
    {
      terrain := new Terrain();
      terrain.Generate(xOffset, yOffset, seed, noise, hardwareThreads, tables, normal);
    }

    /** Regenerates the chunk in place: the old mesh is dropped, the field is refilled, the mesh
        is extracted from it afresh and the placement is reset. The result depends on the seed,
        the noise, the offset and the tables only, not on the number of worker threads. */
    method Generate(xOffset: int, yOffset: int, seed: real, noise: NoiseLayer,
                    hardwareThreads: nat, tables: Tables, normal: NormalFn)
      requires Valid() && TablesConsistent(tables)
      modifies this, density
      ensures Valid()
      ensures density[..] == Field(Sampler(noise, seed, xOffset, yOffset))
      ensures vertices == Mesh(Field(Sampler(noise, seed, xOffset, yOffset)), tables, normal)
      ensures scale == Vec3(1.0, 1.0, 1.0) && rotation == Vec3(0.0, 0.0, 0.0)
      ensures position == Vec3((xOffset * Size) as real, -10.0, (yOffset * Size) as real)
    {
      var sampler := Sampler(noise, seed, xOffset, yOffset);
      vertices := [];
      PopulateDensity(sampler, hardwareThreads);
      assert density[..] == Field(sampler);
      ExtractSurface(tables, normal);
      scale := Vec3(1.0, 1.0, 1.0);
      rotation := Vec3(0.0, 0.0, 0.0);
      position := Vec3((xOffset * Size) as real, -10.0, (yOffset * Size) as real);
    }

    /** One worker's job: every cell of columns startX .. endX-1, in x, y, z order. Slots
        outside those columns are left as they were. */
    method FillSlice(s: Sampler, startX: int, endX: int)
      requires Valid() && 0 <= startX <= endX <= Size
      modifies density
      ensures forall i :: Index3D(startX, 0, 0) <= i < Index3D(endX, 0, 0) ==> density[i] == Field(s)[i]
      ensures forall i :: 0 <= i < CellCount && !(Index3D(startX, 0, 0) <= i < Index3D(endX, 0, 0)) ==>
        density[i] == old(density[i])
    {
      ghost var field := Field(s);
      for x := startX to endX
        invariant forall i :: Index3D(startX, 0, 0) <= i < Index3D(x, 0, 0) ==> density[i] == field[i]
        invariant forall i :: 0 <= i < CellCount && !(Index3D(startX, 0, 0) <= i < Index3D(x, 0, 0)) ==>
          density[i] == old(density[i])
      {
        for y := 0 to 256
          invariant forall i :: Index3D(startX, 0, 0) <= i < Index3D(x, y, 0) ==> density[i] == field[i]
          invariant forall i :: 0 <= i < CellCount && !(Index3D(startX, 0, 0) <= i < Index3D(x, y, 0)) ==>
            density[i] == old(density[i])
        {
          label column:
          FillColumn(s, x, y);
          forall i | Index3D(startX, 0, 0) <= i < Index3D(x, y + 1, 0)
            ensures density[i] == field[i]
          {
            if i < Index3D(x, y, 0) {
              assert density[i] == old@column(density[i]);
            }
          }
        }
      }
    }

    /** The innermost loop of the fill: the cells (x, y, 0) .. (x, y, Size-1), which occupy
        consecutive slots. */
    method FillColumn(s: Sampler, x: int, y: int)
      requires Valid() && 0 <= x < Size && 0 <= y < Height
      modifies density
      ensures forall i :: Index3D(x, y, 0) <= i < Index3D(x, y + 1, 0) ==> density[i] == Field(s)[i]
      ensures forall i :: 0 <= i < CellCount && !(Index3D(x, y, 0) <= i < Index3D(x, y + 1, 0)) ==>
        density[i] == old(density[i])
    {
      ghost var field := Field(s);
      for z := 0 to Size
        invariant forall i :: Index3D(x, y, 0) <= i < Index3D(x, y, z) ==> density[i] == field[i]
        invariant forall i :: 0 <= i < CellCount && !(Index3D(x, y, 0) <= i < Index3D(x, y, z)) ==>
          density[i] == old(density[i])
      {
        var index := Index3D(x, y, z);
        label write:
        SampleCell(s, x, y, z);
        assert Index3D(x, y, z + 1) == index + 1;
        forall i | Index3D(x, y, 0) <= i < index + 1
          ensures density[i] == field[i]
        {
          if i < index {
            assert density[i] == old@write(density[i]);
          }
        }
      }
    }

    /** The body of the fill loop: computes the density of cell (x, y, z) and stores it in
        the cell's slot; no other slot changes. */
    method SampleCell(s: Sampler, x: int, y: int, z: int)
      requires Valid() && InBounds(x, y, z)
      modifies density
      ensures density[Index3D(x, y, z)] == Field(s)[Index3D(x, y, z)]
      ensures forall i :: 0 <= i < CellCount && i != Index3D(x, y, z) ==> density[i] == old(density[i])
    {
      FieldAtCell(s, x, y, z);
      density[Index3D(x, y, z)] := SampleDensity(s, x, y, z);
    }

    /** The density fill: the x range is cut into one slice per worker (the remainder going
        to the last), and each slice is filled in turn. Every slot ends up holding its cell's
        density, whatever the worker count. */
    method PopulateDensity(s: Sampler, hardwareThreads: nat)
      requires Valid()
      modifies density
      ensures density[..] == Field(s)
    {
      ghost var field := Field(s);
      var numThreads := ThreadCount(hardwareThreads);
      var chunkPerThread := Size / numThreads;
      var leftover := Size % numThreads;
      ghost var covered := 0;
      for t := 0 to numThreads
        invariant t < numThreads ==> covered == SliceStart(t, numThreads)
        invariant t == numThreads ==> covered == Size
        invariant 0 <= covered <= Size
        invariant forall i :: 0 <= i < Index3D(covered, 0, 0) ==> density[i] == field[i]
      {
        var startX, endX := SliceBounds(t, numThreads, chunkPerThread, leftover);
        SliceWithin(t, numThreads);
        if t + 1 < numThreads {
          SliceAbuts(t, numThreads);
        } else {
          LastSliceEnds(numThreads);
        }
        ghost var before := density[..];
        FillSlice(s, startX, endX);
        PrefixExtend(before, density[..], field, Index3D(startX, 0, 0), Index3D(endX, 0, 0));
        covered := endX;
      }
      assert forall i :: 0 <= i < CellCount ==> density[..][i] == field[i];
    }

    /** The density of corner (px, py, pz): the stored value inside the field, the sentinel
        outside it. */
    method FetchCorner(px: int, py: int, pz: int) returns (value: real)
      requires Valid()
      ensures value == CornerValue(density[..], px, py, pz)
    {
      if 0 <= px < Size && 0 <= py < 256 && 0 <= pz < Size {
        value := density[Index3D(px, py, pz)];
      } else {
        value := Sentinel;
      }
    }

    /** Fetches the 8 corners of the cube at (x, y, z): positions, and densities with the
        sentinel for corners outside the field. */
    method FetchCube(x: int, y: int, z: int) returns (cubeValues: seq<real>, cubePositions: seq<Vec3>)
      requires Valid()
      ensures cubeValues == CubeValues(density[..], x, y, z)
      ensures cubePositions == CubePositions(x, y, z)
    {
      ghost var d := density[..];
      ghost var expected := CubeValues(d, x, y, z);
      ghost var corners := CubePositions(x, y, z);
      var values := new real[8];
      var positions := new Vec3[8](_ => Vec3(0.0, 0.0, 0.0));
      for i := 0 to 8
        invariant forall j :: 0 <= j < i ==> values[j] == expected[j]
        invariant forall j :: 0 <= j < i ==> positions[j] == corners[j]
      {
        var offset := CornerOffsets[i];
        var px, py, pz := x + offset.0, y + offset.1, z + offset.2;
        positions[i] := Vec3(px as real, py as real, pz as real);
        values[i] := FetchCorner(px, py, pz);
        assert values[i] == expected[i];
        assert positions[i] == corners[i];
      }
      assert values[..] == expected;
      assert positions[..] == corners;
      cubeValues := values[..];
      cubePositions := positions[..];
    }

    /** Appends the triangles of a table row: three vertices per triple before the -1. */
    method EmitTriangles(row: seq<int>, edgeVertices: seq<Option<Vec3>>, normal: NormalFn)
      requires RowReadable(row, edgeVertices)
      modifies this`vertices
      ensures vertices == old(vertices) + TrianglesFrom(row, 0, edgeVertices, normal)
    {
      ghost var k := FirstSentinel(row);
      var i := 0;
      while row[i] != TriSentinel
        invariant i % 3 == 0 && i <= k
        invariant old(vertices) + TrianglesFrom(row, 0, edgeVertices, normal)
                  == vertices + TrianglesFrom(row, i, edgeVertices, normal)
        decreases k - i
      {
        TrianglesFromStep(row, i, edgeVertices, normal);
        var v0 := edgeVertices[row[i]].value;
        var v1 := edgeVertices[row[i + 1]].value;
        var v2 := edgeVertices[row[i + 2]].value;
        var n := normal(v0, v1, v2);
        var a := Vertex(Mul(v0, MeshScale), n, ZeroUV);
        var b := Vertex(Mul(v1, MeshScale), n, ZeroUV);
        var c := Vertex(Mul(v2, MeshScale), n, ZeroUV);
        ghost var before := vertices;
        ghost var rest := TrianglesFrom(row, i + 3, edgeVertices, normal);
        vertices := vertices + [a];
        vertices := vertices + [b];
        vertices := vertices + [c];
        assert vertices == before + [a, b, c];
        assert before + ([a, b, c] + rest) == vertices + rest;
        i := i + 3;
      }
    }

    /** Processes the cube at (x, y, z): classify it, skip it when its edge mask is empty,
        otherwise interpolate its crossing edges and append its triangles. */
    method MarchCube(x: int, y: int, z: int, tables: Tables, normal: NormalFn)
      requires Valid() && TablesConsistent(tables)
      modifies this`vertices
      ensures vertices == old(vertices) + CubeMesh(density[..], x, y, z, tables, normal)
    {
      var cubeValues, cubePositions := FetchCube(x, y, z);
      var cubeIndex := ClassifyCube(cubeValues);
      var mask := tables.edgeTable[cubeIndex as int];
      if mask == 0 {
        return;
      }
      var edgeVertices := InterpolateEdges(mask, cubeValues, cubePositions);
      ConsistentRowReadable(mask, tables.triTable[cubeIndex as int], cubeValues, cubePositions);
      EmitTriangles(tables.triTable[cubeIndex as int], edgeVertices, normal);
    }

    /** One row of cubes: z from 0 to Size - 2 at fixed (x, y). */
    method MarchRow(x: int, y: int, tables: Tables, normal: NormalFn)
      requires Valid() && TablesConsistent(tables)
      modifies this`vertices
      ensures vertices == old(vertices) + RowMesh(CubeMeshes(density[..], tables, normal), x, y, Size - 1)
    {
      ghost var cube := CubeMeshes(density[..], tables, normal);
      for z := 0 to Size - 1
        invariant vertices == old(vertices) + RowMesh(cube, x, y, z)
      {
        ghost var before := vertices;
        MarchCube(x, y, z, tables, normal);
        RowMeshAppend(cube, x, y, z, old(vertices), before, vertices);
      }
    }

    /** One layer of cubes: every row at fixed x, y from 0 to Height - 2. */
    method MarchLayer(x: int, tables: Tables, normal: NormalFn)
      requires Valid() && TablesConsistent(tables)
      modifies this`vertices
      ensures vertices == old(vertices) + LayerMesh(CubeMeshes(density[..], tables, normal), x, Height - 1)
    {
      ghost var cube := CubeMeshes(density[..], tables, normal);
      for y := 0 to 256 - 1
        invariant vertices == old(vertices) + LayerMesh(cube, x, y)
      {
        ghost var before := vertices;
        MarchRow(x, y, tables, normal);
        LayerMeshAppend(cube, x, y, old(vertices), before, vertices);
      }
    }

    /** The marching-cubes pass: every cube (x, y, z) with x, z < Size - 1 and y < 255, in
        x, y, z order, appending its triangles. */
    method ExtractSurface(tables: Tables, normal: NormalFn)
      requires Valid() && TablesConsistent(tables)
      modifies this`vertices
      ensures vertices == old(vertices) + Mesh(density[..], tables, normal)
    {
      ghost var cube := CubeMeshes(density[..], tables, normal);
      for x := 0 to Size - 1
        invariant vertices == old(vertices) + SlabMesh(cube, x)
      {
        ghost var before := vertices;
        MarchLayer(x, tables, normal);
        SlabMeshAppend(cube, x, old(vertices), before, vertices);
      }
    }
  }
}
