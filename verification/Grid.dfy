/** The chunk's density grid: its dimensions, the flat index `index3D`, the inverse
    decoding of a flat index into a cell, and the partition of the x range into the
    contiguous slices that the worker threads fill. */
module Grid {

  /** Chunk width along x and along z. */
  const Size: int := 16
  /** World height along y. */
  const Height: int := 256
  /** Cells in one x-slice (one value of x, every y and z). */
  const PlaneSize: int := Height * Size
  /** Length of the flat density array. */
  const CellCount: int := Size * Height * Size

  predicate InBounds(x: int, y: int, z: int) {
    0 <= x < Size && 0 <= y < Height && 0 <= z < Size
  }

  /** Row-major flat index of cell (x, y, z): x varies slowest, z fastest. */
  function Index3D(x: int, y: int, z: int): (i: int)
    ensures InBounds(x, y, z) ==> 0 <= i < CellCount
  {
    x * 256 * 16 + y * 16 + z
  }

  function CellX(i: int): int { i / PlaneSize }
  function CellY(i: int): int { i / Size % Height }
  function CellZ(i: int): int { i % Size }

  /** Decoding the index of an in-bounds cell gives the cell back. */
  lemma IndexDecode(x: int, y: int, z: int)
    requires InBounds(x, y, z)
    ensures CellX(Index3D(x, y, z)) == x
    ensures CellY(Index3D(x, y, z)) == y
    ensures CellZ(Index3D(x, y, z)) == z
  {
    var i := Index3D(x, y, z);
    DivModUnique(i, x, y * Size + z, PlaneSize);
    DivModUnique(i, x * Height + y, z, Size);
    DivModUnique(x * Height + y, x, y, Height);
  }

  /** Every slot of the flat array is the index of exactly the cell it decodes to. */
  lemma IndexEncode(i: int)
    requires 0 <= i < CellCount
    ensures InBounds(CellX(i), CellY(i), CellZ(i))
    ensures Index3D(CellX(i), CellY(i), CellZ(i)) == i
  {
    var x, r := i / PlaneSize, i % PlaneSize;
    var y, z := r / Size, r % Size;
    assert r == y * Size + z;
    DivModUnique(i, x * Height + y, z, Size);
    DivModUnique(x * Height + y, x, y, Height);
  }

  /** Distinct in-bounds cells occupy distinct slots. */
  lemma IndexInjective(x: int, y: int, z: int, x': int, y': int, z': int)
    requires InBounds(x, y, z) && InBounds(x', y', z')
    requires Index3D(x, y, z) == Index3D(x', y', z')
    ensures x == x' && y == y' && z == z'
  {
    IndexDecode(x, y, z);
    IndexDecode(x', y', z');
  }

  lemma DivModUnique(n: int, q: int, r: int, d: int)
    requires 0 < d && 0 <= r < d && n == q * d + r
    ensures n / d == q && n % d == r
  {
    var q', r' := n / d, n % d;
    assert q' * d + r' == q * d + r;
    assert (q - q') * d == r' - r;
    if q' < q {
      AtLeastOnce(q - q', d);
    } else if q' > q {
      AtLeastOnce(q' - q, d);
    }
  }

  /** k >= 1 copies of d add up to at least d. */
  lemma {:induction false} AtLeastOnce(k: int, d: int)
    requires k >= 1 && d > 0
    ensures k * d >= d
  {
    if k > 1 {
      AtLeastOnce(k - 1, d);
      assert k * d == (k - 1) * d + d;
    }
  }

  // ----- The x-slice partition used by the density fill -----

  /** Worker count: the host's reported parallelism, or 4 when it reports 0. */
  function ThreadCount(hardwareThreads: nat): (n: nat)
    ensures n >= 1
    ensures hardwareThreads > 0 ==> n == hardwareThreads
    ensures hardwareThreads == 0 ==> n == 4
  {
    if hardwareThreads == 0 then 4 else hardwareThreads
  }

  /** First column of slice t of n: t times the per-thread share. */
  function SliceStart(t: nat, n: nat): nat
    requires n >= 1
  {
    t * (Size / n)
  }

  /** One past the last column of slice t of n; the last slice also takes the remainder. */
  function SliceEnd(t: nat, n: nat): nat
    requires n >= 1
  {
    SliceStart(t, n) + Size / n + (if t == n - 1 then Size % n else 0)
  }

  /** Consecutive slices abut, the first starts at 0 and the last ends at Size. */
  lemma SlicesTile(n: nat)
    requires n >= 1
    ensures SliceStart(0, n) == 0
    ensures SliceEnd(n - 1, n) == Size
    ensures forall t: nat :: t + 1 < n ==> SliceEnd(t, n) == SliceStart(t + 1, n)
    ensures forall t: nat :: t < n ==> SliceStart(t, n) <= SliceEnd(t, n) <= Size
  {
    LastSliceEnds(n);
    forall t: nat | t + 1 < n
      ensures SliceEnd(t, n) == SliceStart(t + 1, n)
    {
      SliceAbuts(t, n);
    }
    forall t: nat | t < n
      ensures SliceStart(t, n) <= SliceEnd(t, n) <= Size
    {
      SliceWithin(t, n);
    }
  }

  /** The last slice ends at Size: the per-thread shares plus the remainder cover the width. */
  lemma LastSliceEnds(n: nat)
    requires n >= 1
    ensures SliceEnd(n - 1, n) == Size
  {
    var c := Size / n;
    assert n * c + Size % n == Size;
    assert (n - 1) * c + c == n * c;
  }

  /** Slice t + 1 starts where slice t ends. */
  lemma SliceAbuts(t: nat, n: nat)
    requires t + 1 < n
    ensures SliceEnd(t, n) == SliceStart(t + 1, n)
  {
    var c := Size / n;
    assert t * c + c == (t + 1) * c;
  }

  /** Each slice is a (possibly empty) range inside [0, Size]. */
  lemma SliceWithin(t: nat, n: nat)
    requires t < n
    ensures SliceStart(t, n) <= SliceEnd(t, n) <= Size
  {
    LastSliceEnds(n);
    if t < n - 1 {
      SlicesOrdered(n, t, n - 1);
    }
  }

  /** Slices are ordered: an earlier slice ends no later than a later one starts. */
  lemma SlicesOrdered(n: nat, t1: nat, t2: nat)
    requires n >= 1 && t1 < t2 < n
    ensures SliceEnd(t1, n) <= SliceStart(t2, n)
  {
    var c := Size / n;
    assert SliceEnd(t1, n) == t1 * c + c;
    assert t1 * c + c == (t1 + 1) * c;
    MulMonotone(t1 + 1, t2, c);
  }

  lemma MulMonotone(a: int, b: int, c: int)
    requires a <= b && 0 <= c
    ensures a * c <= b * c
  {
    assert b * c - a * c == (b - a) * c;
  }

  /** Distinct slices share no column. */
  lemma SlicesDisjoint(n: nat, t1: nat, t2: nat, x: int)
    requires n >= 1 && t1 < n && t2 < n && t1 != t2
    ensures !(SliceStart(t1, n) <= x < SliceEnd(t1, n) && SliceStart(t2, n) <= x < SliceEnd(t2, n))
  {
    if t1 < t2 {
      SlicesOrdered(n, t1, t2);
    } else {
      SlicesOrdered(n, t2, t1);
    }
  }

  /** The slice that owns column x: the first slice from t on that ends after x. */
  function SliceFrom(x: int, n: nat, t: nat): (r: nat)
    requires t < n && SliceStart(t, n) <= x < Size
    ensures t <= r < n && SliceStart(r, n) <= x < SliceEnd(r, n)
    decreases n - t
  {
    if t == n - 1 then
      LastSliceEnds(n);
      t
    else if x < SliceEnd(t, n) then
      t
    else
      SliceAbuts(t, n);
      SliceFrom(x, n, t + 1)
  }

  /** The slice that owns column x. */
  function SliceOf(x: int, n: nat): (t: nat)
    requires n >= 1 && 0 <= x < Size
    ensures t < n && SliceStart(t, n) <= x < SliceEnd(t, n)
  {
    SliceFrom(x, n, 0)
  }

  /** Every column of the chunk belongs to exactly one slice, whatever the worker count. */
  lemma SliceOwnsColumn(x: int, n: nat, t: nat)
    requires n >= 1 && 0 <= x < Size && t < n
    ensures SliceStart(t, n) <= x < SliceEnd(t, n) <==> t == SliceOf(x, n)
  {
    if t != SliceOf(x, n) {
      SlicesDisjoint(n, t, SliceOf(x, n), x);
    }
  }
}
