# Terrain chunk generation, modelled in Dafny

This project models how one terrain chunk of the marching-cubes terrain renderer is generated
(`Terrain::Generate`, `index3D` and the `Vertex` record). A chunk is 16 × 256 × 16 voxels.
Generation happens in two passes:

1. **Density fill.** The x range is cut into one contiguous slice per worker thread, and the
   last worker also takes the leftover columns. Every voxel gets a signed density that the
   fractal noise layer shapes into mountains, plateaus and caves. Negative density is solid,
   and every voxel below y = 4 is forced to -1.
2. **Marching cubes.** The pass visits every unit cube (x, y, z) with x, z < 15 and y < 255,
   x slowest and z fastest. It reads the cube's 8 corner densities (1.0 for a corner outside the
   field) and builds the 8-bit configuration. It interpolates a crossing point on every edge the
   edge table marks. Then it appends three vertices for each edge triple of the triangle-table
   row before the row's -1 terminator. A vertex's position is scaled by (2, 1, 2), it carries the
   triangle's face normal, and its texture coordinate is zero.

At the end the chunk's placement is reset: scale (1, 1, 1), rotation 0, and position
(16·xOffset, -10, 16·yOffset).

Modules:

- `Geometry`: vectors, vertices and `glm::clamp`.
- `Grid`: the flat index, its inverse, and the x-slice partition.
- `DensitySynth`: how the noise outputs become one voxel's density, and the whole field as a
  sequence.
- `MarchingCubes`: a value-level specification of what one cube emits and of the whole mesh in
  traversal order, with its lemmas.
- `Chunk`: the class `Terrain`.
  - Its `density` is an `array<real>` and its `vertices` a `seq<Vertex>`.
  - Each loop of `Generate` is a method whose postcondition ties the new state to the
    specification functions.
  - So `Generate` is proved to leave `density[..] == Field(sampler)` and
    `vertices == Mesh(Field(sampler), tables, normal)`, whatever the worker count.

Parameters stand for what lies outside the model:

- the noise layer (`NoiseLayer`);
- the world seed (a `real`, standing for the `float` global);
- the hardware concurrency;
- the two lookup tables (`Tables`, constrained only by `TablesConsistent`);
- the face-normal function (`NormalFn`).

## Model

| member | source | states |
|---|---|---|
| Grid.Index3D | src/object/terrain.h:46-48 | the index of an in-bounds cell lies in [0, 16·256·16), the length of the density array |
| Grid.IndexDecode | src/object/terrain.h:46-48 | decoding the index of an in-bounds cell (x = i / 4096, y = i / 16 mod 256, z = i mod 16) gives back that cell |
| Grid.IndexEncode | src/object/terrain.h:15 | every slot of the density array decodes to an in-bounds cell whose index is that slot, so no slot is unreachable |
| Grid.IndexInjective | src/object/terrain.h:46-48 | distinct in-bounds cells have distinct indices |
| Grid.ThreadCount | src/object/terrain.h:62-63 | the worker count is at least 1, equals the reported hardware concurrency when that is non-zero, and is 4 when it is 0 |
| Chunk.SliceBounds | src/object/terrain.h:67-73 | the bounds the code computes for worker t, t·⌊16/n⌋ and that plus ⌊16/n⌋ plus the remainder for the last worker, are the slice t of n |
| Grid.SliceStart | src/object/terrain.h:71 | worker t's first column: t times the per-thread share ⌊16/n⌋ |
| Grid.SliceEnd | src/object/terrain.h:72-73 | one past worker t's last column: its start plus the share, plus the remainder 16 mod n for the last worker |
| Grid.SlicesTile | src/object/terrain.h:67-73 | slices start at 0, consecutive slices abut, each lies inside [0, 16), and the last one ends at 16 |
| Grid.LastSliceEnds | src/object/terrain.h:67-73 | the last worker's slice ends at column 16, remainder included |
| Grid.SliceAbuts | src/object/terrain.h:70-73 | slice t ends exactly where slice t + 1 starts |
| Grid.SliceWithin | src/object/terrain.h:70-73 | every slice is a (possibly empty) range inside [0, 16) |
| Grid.SlicesOrdered | src/object/terrain.h:70-73 | an earlier slice ends no later than a later slice starts |
| Grid.SlicesDisjoint | src/object/terrain.h:70-76 | no column belongs to two different slices |
| Grid.SliceFrom | src/object/terrain.h:70-76 | searching from slice t, finds a slice of index at least t that contains column x |
| Grid.SliceOf | src/object/terrain.h:70-76 | every column x in [0, 16) lies in some slice t < n |
| Grid.SliceOwnsColumn | src/object/terrain.h:70-76 | column x lies in slice t exactly when t is SliceOf(x, n), so each column, and with it each cell, is filled by exactly one worker |
| Geometry.GlmClampInRange | src/object/terrain.h:172 | glm::clamp with lo ≤ hi lands in [lo, hi] and leaves a value already in range unchanged |
| Geometry.GlmClamp | src/object/terrain.h:172 | glm::clamp as min(max(v, lo), hi): never above hi, and always one of v, lo or hi (used at terrain.h:91 and :172) |
| DensitySynth.CaveClampIsIdentity | src/object/terrain.h:91 | glm::clamp(c, 0, c) returns c for every c, negative or not |
| DensitySynth.SampleCoord | src/object/terrain.h:80-82 | the horizontal noise coordinate of a column: (column + seed + 8·chunk offset) · 0.025 / 16 |
| DensitySynth.ChunkSeamsAgree | src/object/terrain.h:80-82 | column c of the chunk at offset o + 1 samples the noise where column c + 8 of the chunk at offset o does, and with chunks 16 apart and x stretched by 2 both columns sit at the same world coordinate |
| DensitySynth.SampleDensity | src/object/terrain.h:80-96 | the density of one voxel: mountain, plateau and cave noise combined as y - (102·mountain + 5·plateau + 5) + 10·cave, or -1 below y = 4 |
| DensitySynth.FloorClamp | src/object/terrain.h:96 | every voxel with y < 4 has density exactly -1, whatever the noise, seed or offset |
| DensitySynth.DensityAboveFloor | src/object/terrain.h:80-94 | above the floor, the density is y minus (mountain noise · 102 + plateau noise · 5 + 5) plus 10 · the raw cave noise, with the sample coordinates (column + seed + 8·offset) · 0.025 / 16 |
| DensitySynth.Field | src/object/terrain.h:15 | the field has one value per slot of the density array |
| DensitySynth.FieldAtCell | src/object/terrain.h:98 | the field's slot index3D(x, y, z) holds the density of voxel (x, y, z) |
| DensitySynth.FieldFloorIsSolid | src/object/terrain.h:96-98 | the stored slot of every cell below y = 4 holds -1 |
| Chunk.Terrain.SampleCell | src/object/terrain.h:80-98 | writes voxel (x, y, z)'s density into its slot and changes no other slot |
| Chunk.Terrain.FillColumn | src/object/terrain.h:78-99 | the z loop fills the 16 consecutive slots of column (x, y) with their densities and leaves every other slot unchanged |
| Chunk.Terrain.FillSlice | src/object/terrain.h:76-101 | one worker fills every slot of its columns [startX, endX) with the field's value and leaves every other slot unchanged |
| Chunk.PrefixExtend | src/object/terrain.h:70-107 | filling the slots of the next slice after an already-filled prefix leaves the longer prefix filled |
| Chunk.Terrain.PopulateDensity | src/object/terrain.h:62-107 | after every worker's slice is filled, the density array equals the field slot by slot, for any worker count |
| MarchingCubes.CornerValue | src/object/terrain.h:140-148 | a corner's density: density[index3D(px, py, pz)] when the corner is inside the field, 1.0 otherwise |
| MarchingCubes.CubeValues | src/object/terrain.h:129-149 | a cube has 8 corner densities |
| MarchingCubes.CubePositions | src/object/terrain.h:130-138 | a cube has 8 corner positions |
| MarchingCubes.VisitedCornersInBounds | src/object/terrain.h:126-145 | every corner of a visited cube is in bounds and reads density[index3D(corner)], so the 1.0 sentinel is never used |
| MarchingCubes.OutsideCornerReadsSentinel | src/object/terrain.h:140-148 | a corner outside the field reads 1.0 |
| Chunk.Terrain.FetchCorner | src/object/terrain.h:134-148 | reads the stored density of an in-bounds corner and 1.0 for any other |
| Chunk.Terrain.FetchCube | src/object/terrain.h:129-149 | fills the cube's 8 densities and 8 positions as CubeValues and CubePositions of the current field |
| MarchingCubes.CubeIndexFrom | src/object/terrain.h:151-153 | the configuration after the first k corners: each corner below 0 ORs in its bit 1 << i |
| MarchingCubes.CubeIndexOf | src/object/terrain.h:151-153 | the cube's 8-bit configuration, built from all 8 corners |
| MarchingCubes.CubeIndexFromBit | src/object/terrain.h:151-153 | after the first k corners, bit i of the configuration is set exactly when i < k and corner i is below 0 |
| MarchingCubes.CubeIndexBits | src/object/terrain.h:151-153 | bit i of the 8-bit configuration is set exactly when corner i's density is below 0 |
| MarchingCubes.NoInsideCornerIsConfigZero | src/object/terrain.h:151-153 | a cube with no corner below 0 has configuration 0 |
| Chunk.ClassifyCube | src/object/terrain.h:151-153 | the loop builds the cube's configuration, whose bit i is set exactly when corner i is below 0 |
| MarchingCubes.Mu | src/object/terrain.h:168-173 | the interpolation parameter always lies in [0, 1] |
| MarchingCubes.MuDegenerate | src/object/terrain.h:168-170 | when the endpoint densities differ by at most 1e-5, the parameter is exactly 0.5 |
| MarchingCubes.MuAtCrossing | src/object/terrain.h:168-173 | on an edge whose endpoints straddle 0 and are not degenerate, the densities' linear interpolation at the parameter is exactly 0, so the clamp changes nothing |
| MarchingCubes.EdgePointOnSegment | src/object/terrain.h:174 | with the parameter in [0, 1], the point p0 + mu·(p1 - p0) lies between p0 and p1 on every axis |
| MarchingCubes.EdgeVertex | src/object/terrain.h:161-174 | the crossing point of edge i: its first corner plus Mu of the two corner densities times the edge vector |
| MarchingCubes.EdgePoints | src/object/terrain.h:157-176 | there are 12 edge slots |
| MarchingCubes.EdgePointsOnSegments | src/object/terrain.h:159-176 | every edge slot the mask writes lies between the two corners of its edge |
| MarchingCubes.EdgeVertexInCube | src/object/terrain.h:159-176 | every crossing point lies in the unit box of its cube |
| Chunk.InterpolateEdge | src/object/terrain.h:161-174 | computes the crossing point of edge i as EdgeVertex: the parameter is 0.5 for a degenerate edge and the clamped ratio otherwise |
| Chunk.InterpolateEdges | src/object/terrain.h:157-176 | writes exactly the edge slots the mask marks, each with its crossing point, and leaves the others unwritten |
| MarchingCubes.SentinelFrom | src/object/terrain.h:178 | finds the first -1 at or after i, or the row's end; no entry before it is -1 |
| MarchingCubes.ConsistentRowReadable | src/object/terrain.h:155-181 | under consistent tables, every edge number a row names before its -1 refers to an edge slot that the interpolation wrote |
| MarchingCubes.NextTriple | src/object/terrain.h:178 | stepping by 3 from a multiple of 3 below the terminator stays at or before the terminator |
| MarchingCubes.Triangle | src/object/terrain.h:179-188 | the three vertices of one triangle: positions scaled by (2, 1, 2), one normal computed from the unscaled points, texture coordinate zero |
| MarchingCubes.TrianglesFrom | src/object/terrain.h:178-189 | the vertices a row emits from entry i: one triangle per triple of edge numbers, up to the row's -1 |
| MarchingCubes.TrianglesFromStep | src/object/terrain.h:178-189 | one step of the emission loop appends one whole triangle before the rest of the row |
| MarchingCubes.TrianglesFromShape | src/object/terrain.h:178-189 | a row emits exactly one vertex per entry before its -1, each at the crossing point that entry names scaled by (2, 1, 2), in row order |
| MarchingCubes.TrianglesFromSoup | src/object/terrain.h:183-188 | a row's vertices come in triples that share one normal, and every texture coordinate is zero |
| MarchingCubes.SoupConcat | src/object/terrain.h:186-188 | appending one triangle soup to another gives a triangle soup |
| Chunk.Terrain.EmitTriangles | src/object/terrain.h:178-189 | the emission loop appends exactly the row's triangles to the vertex list |
| MarchingCubes.CubeMesh | src/object/terrain.h:129-189 | what one cube emits: nothing when its configuration's edge mask is 0, otherwise its table row's triangles over its interpolated edge points |
| MarchingCubes.CubeMeshShape | src/object/terrain.h:155-189 | a cube whose edge mask is 0 emits nothing; otherwise it emits one vertex per row entry before the -1 (three per triple) |
| MarchingCubes.CubeMeshIsSoup | src/object/terrain.h:178-189 | what a cube emits is a triangle soup |
| MarchingCubes.CubeMeshInCube | src/object/terrain.h:174-188 | every vertex a cube emits lies in that cube's box scaled by (2, 1, 2) |
| MarchingCubes.AirCubeIsEmpty | src/object/terrain.h:151-155 | with no density below 0 and an empty mask for configuration 0, a cube emits nothing |
| Chunk.Terrain.MarchCube | src/object/terrain.h:129-189 | processing one cube appends exactly CubeMesh of the current field to the vertex list |
| MarchingCubes.RowMesh | src/object/terrain.h:128-190 | the vertices of cubes (x, y, 0) to (x, y, z - 1), in order |
| MarchingCubes.LayerMesh | src/object/terrain.h:127-191 | the vertices of the full rows (x, 0, ·) to (x, y - 1, ·), in order |
| MarchingCubes.SlabMesh | src/object/terrain.h:126-192 | the vertices of the full layers 0 to x - 1, in order |
| MarchingCubes.Mesh | src/object/terrain.h:126-192 | the chunk's mesh: every cube with x, z < 15 and y < 255, x slowest and z fastest |
| MarchingCubes.RowMeshAppend | src/object/terrain.h:128 | appending cube z's vertices after the row up to z gives the row up to z + 1 |
| MarchingCubes.LayerMeshAppend | src/object/terrain.h:127 | appending a full row after the layer up to y gives the layer up to y + 1 |
| MarchingCubes.SlabMeshAppend | src/object/terrain.h:126 | appending a full layer after the slab up to x gives the slab up to x + 1 |
| Chunk.Terrain.MarchRow | src/object/terrain.h:128-190 | the z loop appends the cubes (x, y, 0) to (x, y, 14) in order |
| Chunk.Terrain.MarchLayer | src/object/terrain.h:127-191 | the y loop appends every row of layer x, y from 0 to 254, in order |
| Chunk.Terrain.ExtractSurface | src/object/terrain.h:126-192 | the marching-cubes pass appends the whole chunk's mesh, every visited cube in x, y, z order |
| MarchingCubes.RowMeshSoup | src/object/terrain.h:128-190 | a row of cubes, each emitting a soup, emits a soup |
| MarchingCubes.LayerMeshSoup | src/object/terrain.h:127-191 | a layer of soups is a soup |
| MarchingCubes.SlabMeshSoup | src/object/terrain.h:126-192 | a slab of soups is a soup |
| MarchingCubes.MeshIsTriangleSoup | src/object/terrain.h:126-192 | the chunk's mesh has a length that is a multiple of 3, each triple shares one normal, and every texture coordinate is zero |
| MarchingCubes.AllInChunkConcat | src/object/terrain.h:186-188 | two vertex lists inside the chunk's box concatenate to one inside it |
| MarchingCubes.VisitedCubeInChunk | src/object/terrain.h:126-188 | every visited cube emits only vertices inside the chunk's scaled box |
| MarchingCubes.RowMeshInChunk | src/object/terrain.h:128-190 | a visited row emits only vertices inside the chunk's box |
| MarchingCubes.LayerMeshInChunk | src/object/terrain.h:127-191 | a visited layer emits only vertices inside the chunk's box |
| MarchingCubes.SlabMeshInChunk | src/object/terrain.h:126-192 | the visited layers emit only vertices inside the chunk's box |
| MarchingCubes.MeshInChunk | src/object/terrain.h:126-192 | every vertex of the chunk's mesh lies in [0, 30] × [0, 255] × [0, 30]; a cube at y = 254 reaches y = 255 with its top corners |
| MarchingCubes.EmptyRow | src/object/terrain.h:128-190 | a row of cubes that each emit nothing emits nothing |
| MarchingCubes.EmptyLayer | src/object/terrain.h:127-191 | a layer of empty rows emits nothing |
| MarchingCubes.EmptySlab | src/object/terrain.h:126-192 | a slab of empty layers emits nothing |
| MarchingCubes.AirFieldHasEmptyMesh | src/object/terrain.h:126-192 | a field with no density below 0 (all air) yields an empty mesh when configuration 0's edge mask is 0 |
| Chunk.Terrain.constructor | src/object/terrain.h:28 | a new chunk has a fresh zeroed density array of 16·256·16 slots and no vertices |
| Chunk.Terrain.Generate | src/object/terrain.h:50-196 | drops the old mesh, then leaves the density array equal to the field and the vertex list equal to exactly this field's mesh, whatever the worker count; it then resets scale to (1, 1, 1), rotation to 0 and position to (16·xOffset, -10, 16·yOffset) |
| Chunk.Terrain.CreateTerrain | src/object/terrain.h:27-32 | a new chunk at the given offset is generated: its field, its mesh and its placement are those Generate promises |

## Left out

- Rendering: the OpenGL vertex-array and buffer setup at the end of `Generate` and `Render`.
  These are GPU I/O with nothing to state about the chunk's data.
- `CreateModelMatrix`: glm matrix and trigonometry work over floats.
- Threads: `std::thread`, `hardware_concurrency` and `join`. Worker t's slice is filled by
  iteration t of a sequential loop. The slices are proved pairwise disjoint and to tile [0, 16),
  and `PopulateDensity` is proved for any worker count, so the result does not depend on the
  schedule. Data races are not modelled.
- The noise layer's algorithm (util/noise.h is not part of this model). It is an uninterpreted
  `NoiseLayer` parameter, and only how its outputs are combined is modelled.
- The edge and triangle table contents (marchingCubeTable.h is not part of this model). They
  are a `Tables` parameter, and `TablesConsistent` requires of them only what the loops rely on:
  each non-empty mask's row is terminated by -1 at a multiple of 3 and names only marked edges.
  `AirFieldHasEmptyMesh` additionally assumes that configuration 0's mask is 0, as in the
  standard tables.
- The face normal `normalize(cross(v2 - v0, v1 - v0))`: float vector math, left as a `NormalFn`
  parameter. The model states only that the three vertices of a triangle share it.
- IEEE-754 single precision: densities, positions and the seed are `real`. `pow(x, 1.0f)` is
  taken as x. Casts of the integer cube coordinates to float are exact in this range.
- Uninitialised edge slots: the code leaves an unmarked `edgeVertices` slot uninitialised.
  The model writes `None` there, and proves that the emission only reads written slots.
- src/core.h (window, input, render loop, the wall-clock `srand` seed and the chunk grid that
  calls `CreateTerrain` for offsets -10..9): application glue outside the chunk's generation.
- A non-negative cave term: the cave noise is commonly described as clamped to be non-negative,
  but the code writes `glm::clamp(caveNoise, 0.0f, caveNoise)`, which returns `caveNoise`
  unchanged. The model follows the code (`CaveClampIsIdentity`, `DensityAboveFloor`).
