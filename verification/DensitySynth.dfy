/** The density synthesizer: how the outputs of the fractal noise layer are composed into
    the signed density of one voxel (src/object/terrain.h, the body of the fill loop).
    Negative density is solid ground, zero and above is air. */
module DensitySynth {
  import opened Grid
  import opened Geometry

  /** The fractal noise layer `noiseLayer(x, z, lacunarity, persistence, octaves, seed)`.
      Its algorithm lives outside this model; only how its outputs are combined is modelled. */
  type NoiseLayer = (real, real, real, real, int, real) -> real

  /** What a chunk's density depends on: the noise layer, the world seed and the chunk offset. */
  datatype Sampler = Sampler(noise: NoiseLayer, seed: real, xOffset: int, yOffset: int)

  const Frequency: real := 0.025
  const Lacunarity: real := 1.5
  const Persistence: real := 0.6
  const HeightScale: real := 102.0
  const CaveFreq: real := 10.0
  const MountainOctaves: int := 10
  const PlateauOctaves: int := 3
  const PlateauLacunarity: real := 1.2
  const PlateauPersistence: real := 0.2
  const CaveOctaves: int := 10

  /** Cells with y below this are forced solid. */
  const FloorLevel: int := 4
  /** The density every floor cell receives. */
  const FloorDensity: real := -1.0

  /** `glm::clamp(c, 0, c)` as the fill loop writes it returns c unchanged, negative or not:
      the cave term is not made non-negative. */
  lemma CaveClampIsIdentity(c: real)
    ensures GlmClamp(c, 0.0, c) == c
  {
  }

  /** The normalised horizontal sample coordinate: (column + seed + chunkOffset*8) * frequency / size. */
  function SampleCoord(column: int, seed: real, chunkOffset: int): real {
    ((column as real) + seed + ((chunkOffset * 8) as real)) * Frequency / (Size as real)
  }

  /** Chunk seams: chunk offsets advance the noise coordinate by 8 columns, so column c of the
      chunk at offset o + 1 samples the noise where column c + 8 of the chunk at offset o does.
      With vertex positions stretched by 2 and chunks placed 16 apart, both columns sit at the
      same world coordinate 16 * o + 2 * (c + 8), so neighbouring chunks agree where they overlap. */
  lemma ChunkSeamsAgree(c: int, seed: real, o: int)
    ensures SampleCoord(c, seed, o + 1) == SampleCoord(c + 8, seed, o)
    ensures Size * (o + 1) + 2 * c == Size * o + 2 * (c + 8)
  {
  }

  /** The density of voxel (x, y, z) of the chunk at s's offset. */
  function SampleDensity(s: Sampler, x: int, y: int, z: int): real {
    var xi := SampleCoord(x, s.seed, s.xOffset);
    var yi := (y as real) * Frequency / (Size as real);
    var zi := SampleCoord(z, s.seed, s.yOffset);
    var mountainNoise := s.noise(xi, zi, Lacunarity, Persistence, MountainOctaves, s.seed);
    // pow(mountainNoise, 1.0) is the identity
    var baseHeight := mountainNoise * HeightScale;
    var basePlateau := s.noise(xi * 0.2, zi * 0.2, PlateauLacunarity, PlateauPersistence, PlateauOctaves, s.seed);
    var baseHeight' := baseHeight + basePlateau * 5.0 + 5.0;
    var caveNoise := s.noise(xi * CaveFreq, yi * CaveFreq, Lacunarity, Persistence, CaveOctaves, zi * CaveFreq);
    var caveNoise' := GlmClamp(caveNoise, 0.0, caveNoise);
    var terrainSurface := (y as real) - baseHeight';
    var density := terrainSurface + caveNoise' * 10.0;
    if y < FloorLevel then FloorDensity else density
  }

  /** Floor clamp: every voxel below the floor level is solid with density exactly -1,
      whatever the noise layer, seed or chunk offset. */
  lemma FloorClamp(s: Sampler, x: int, y: int, z: int)
    requires y < FloorLevel
    ensures SampleDensity(s, x, y, z) == FloorDensity
  {
  }

  /** Above the floor the density is the height above the noise-shaped surface plus ten times
      the raw cave noise; in particular it is below zero exactly when the voxel lies under
      the surface by more than that cave term. */
  lemma DensityAboveFloor(s: Sampler, x: int, y: int, z: int)
    requires y >= FloorLevel
    ensures var xi := SampleCoord(x, s.seed, s.xOffset);
            var yi := (y as real) * Frequency / (Size as real);
            var zi := SampleCoord(z, s.seed, s.yOffset);
            var surface := s.noise(xi, zi, Lacunarity, Persistence, MountainOctaves, s.seed) * HeightScale
                           + s.noise(xi * 0.2, zi * 0.2, PlateauLacunarity, PlateauPersistence, PlateauOctaves, s.seed) * 5.0
                           + 5.0;
            var cave := s.noise(xi * CaveFreq, yi * CaveFreq, Lacunarity, Persistence, CaveOctaves, zi * CaveFreq);
            SampleDensity(s, x, y, z) == (y as real) - surface + cave * 10.0
  {
    var xi := SampleCoord(x, s.seed, s.xOffset);
    var yi := (y as real) * Frequency / (Size as real);
    var zi := SampleCoord(z, s.seed, s.yOffset);
    CaveClampIsIdentity(s.noise(xi * CaveFreq, yi * CaveFreq, Lacunarity, Persistence, CaveOctaves, zi * CaveFreq));
  }

  /** The density the fill loop stores in slot i of the flat array. */
  function FieldValue(s: Sampler, i: int): real {
    SampleDensity(s, CellX(i), CellY(i), CellZ(i))
  }

  /** The whole density field of a chunk, slot by slot. */
  function Field(s: Sampler): (f: seq<real>)
    ensures |f| == CellCount
  {
    seq(CellCount, i => FieldValue(s, i))
  }

  /** Slot Index3D(x, y, z) of the field holds the density of voxel (x, y, z). */
  lemma FieldAtCell(s: Sampler, x: int, y: int, z: int)
    requires InBounds(x, y, z)
    ensures Field(s)[Index3D(x, y, z)] == SampleDensity(s, x, y, z)
  {
    IndexDecode(x, y, z);
  }

  /** Floor clamp for the stored field: the slot of every cell below the floor level holds -1. */
  lemma FieldFloorIsSolid(s: Sampler, x: int, y: int, z: int)
    requires InBounds(x, y, z) && y < FloorLevel
    ensures Field(s)[Index3D(x, y, z)] == FloorDensity
  {
    IndexDecode(x, y, z);
  }
}
