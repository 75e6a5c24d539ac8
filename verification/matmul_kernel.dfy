/** The `mmul` OpenCL kernel: each work-item of a 16 x 16 work-group computes
    one element of C = A * B for row-major N x N matrices, walking the
    shared dimension one 16 x 16 tile at a time through local memory. The
    kernel's index arithmetic is modelled exactly; elements are integers, so
    float rounding and summation order do not arise. */
module MatMulKernel {
  import Arith

  /** `blksz`: the work-group edge and the tile edge. */
  const BlockSize: nat := 16
  const TileSlots: nat := 256

  /** The row-major offset of (row, col) in a matrix with `n` columns. */
  function Cell(n: nat, row: nat, col: nat): nat
  {
    row * n + col
  }

  lemma CellBound(n: nat, row: nat, col: nat)
    requires row < n && col < n
    ensures Cell(n, row, col) < n * n
  {
    Arith.MulMonotone(row, n - 1, n);
    assert (n - 1) * n == n * n - n;
  }

  /** Distinct cells of an n x n matrix have distinct offsets. */
  lemma CellInjective(n: nat, r1: nat, c1: nat, r2: nat, c2: nat)
    requires c1 < n && c2 < n
    requires Cell(n, r1, c1) == Cell(n, r2, c2)
    ensures r1 == r2 && c1 == c2
  {
    Arith.DivUnique(Cell(n, r1, c1), n, r1, c1);
    Arith.DivUnique(Cell(n, r2, c2), n, r2, c2);
  }

  /** The slot of (jl, il) in a local tile: `jl * blksz + il`. */
  function Slot(jl: nat, il: nat): (p: nat)
    requires jl < BlockSize && il < BlockSize
    ensures p < TileSlots && p / BlockSize == jl && p % BlockSize == il
  {
    jl * BlockSize + il
  }

  /** The reference: the dot product of row `j` of A with column `i` of B
      over the first `k` terms of the shared dimension. */
  function Dot(a: seq<int>, b: seq<int>, n: nat, j: nat, i: nat, k: nat): int
    requires |a| == n * n && |b| == n * n
    requires j < n && i < n && k <= n
  {
    if k == 0 then 0
    else
      CellBound(n, j, k - 1);
      CellBound(n, k - 1, i);
      Dot(a, b, n, j, i, k - 1) + a[Cell(n, j, k - 1)] * b[Cell(n, k - 1, i)]
  }

  /** The tile a work-group copies into local memory when its upper-left
      corner is at `base`: slot `Slot(jl, il)` holds `m[base + jl * n + il]`. */
  function LoadTile(m: seq<int>, n: nat, base: nat): (t: seq<int>)
    requires base + 15 * n + 16 <= |m|
    ensures |t| == TileSlots
    ensures forall jl: nat, il: nat :: jl < BlockSize && il < BlockSize ==>
              base + Cell(n, jl, il) < |m| && t[Slot(jl, il)] == m[base + Cell(n, jl, il)]
  {
    seq(TileSlots, p requires 0 <= p < TileSlots =>
      TileIndexBound(n, base, p / BlockSize, p % BlockSize);
      m[base + Cell(n, p / BlockSize, p % BlockSize)])
  }

  lemma TileIndexBound(n: nat, base: nat, jl: nat, il: nat)
    requires jl < BlockSize && il < BlockSize
    ensures base + Cell(n, jl, il) <= base + 15 * n + 15
  {
    Arith.MulMonotone(jl, 15, n);
  }

  /** Every tile the loop touches lies inside its matrix: the A tile starts
      at `jblk * n * 16 + kblk * 16`, the B tile at `iblk * 16 + kblk * 16 * n`. */
  lemma TilesInside(n: nat, blocks: nat, jblk: nat, iblk: nat, kblk: nat)
    requires n == BlockSize * blocks
    requires jblk < blocks && iblk < blocks && kblk < blocks
    ensures jblk * n * BlockSize + kblk * BlockSize + 15 * n + 16 <= n * n
    ensures iblk * BlockSize + kblk * BlockSize * n + 15 * n + 16 <= n * n
  {
    Arith.MulMonotone(jblk * BlockSize, n - BlockSize, n);
    Arith.MulMonotone(kblk * BlockSize, n - BlockSize, n);
    assert (n - BlockSize) * n == n * n - BlockSize * n;
    assert jblk * n * BlockSize == jblk * BlockSize * n;
  }

  /** The A-tile slot read at step `kloc` is A(j, kblk * 16 + kloc). */
  lemma ATileIndex(n: nat, jblk: nat, jloc: nat, kblk: nat, kloc: nat)
    ensures jblk * n * BlockSize + kblk * BlockSize + Cell(n, jloc, kloc)
         == Cell(n, jblk * BlockSize + jloc, kblk * BlockSize + kloc)
  {
    assert (jblk * BlockSize + jloc) * n == jblk * BlockSize * n + jloc * n;
    assert jblk * n * BlockSize == jblk * BlockSize * n;
  }

  /** The B-tile slot read at step `kloc` is B(kblk * 16 + kloc, i). */
  lemma BTileIndex(n: nat, iblk: nat, iloc: nat, kblk: nat, kloc: nat)
    ensures iblk * BlockSize + kblk * BlockSize * n + Cell(n, kloc, iloc)
         == Cell(n, kblk * BlockSize + kloc, iblk * BlockSize + iloc)
  {
    assert (kblk * BlockSize + kloc) * n == kblk * BlockSize * n + kloc * n;
  }

  /** Advancing the B base by `blksz * N` moves it down one row of tiles. */
  lemma NextRowOfTiles(kblk: nat, n: nat)
    ensures (kblk + 1) * BlockSize * n == kblk * BlockSize * n + BlockSize * n
  {
  }

  /** One step of the inner loop adds the next term of the dot product:
      the A-tile and B-tile slots it reads are A(j, k) and B(k, i) for
      k = kblk * 16 + kloc. */
  lemma InnerStep(a: seq<int>, b: seq<int>, n: nat, blocks: nat,
                  iblk: nat, jblk: nat, iloc: nat, jloc: nat, kblk: nat, kloc: nat,
                  aTile: seq<int>, bTile: seq<int>)
    requires n == BlockSize * blocks && |a| == n * n && |b| == n * n
    requires iblk < blocks && jblk < blocks && kblk < blocks
    requires iloc < BlockSize && jloc < BlockSize && kloc < BlockSize
    requires jblk * n * BlockSize + kblk * BlockSize + 15 * n + 16 <= n * n
    requires iblk * BlockSize + kblk * BlockSize * n + 15 * n + 16 <= n * n
    requires aTile == LoadTile(a, n, jblk * n * BlockSize + kblk * BlockSize)
    requires bTile == LoadTile(b, n, iblk * BlockSize + kblk * BlockSize * n)
    ensures Dot(a, b, n, jblk * BlockSize + jloc, iblk * BlockSize + iloc, kblk * BlockSize + kloc + 1)
         == Dot(a, b, n, jblk * BlockSize + jloc, iblk * BlockSize + iloc, kblk * BlockSize + kloc)
            + aTile[Slot(jloc, kloc)] * bTile[Slot(kloc, iloc)]
  {
    ATileIndex(n, jblk, jloc, kblk, kloc);
    BTileIndex(n, iblk, iloc, kblk, kloc);
  }

  /** The `kloc` loop over one pair of tiles: it adds the next 16 terms of
      the dot product. */
  method AccumulateTile(a: seq<int>, b: seq<int>, n: nat, blocks: nat,
                        iblk: nat, jblk: nat, iloc: nat, jloc: nat, kblk: nat,
                        aTile: seq<int>, bTile: seq<int>, c0: int) returns (c: int)
    requires n == BlockSize * blocks && |a| == n * n && |b| == n * n
    requires iblk < blocks && jblk < blocks && kblk < blocks
    requires iloc < BlockSize && jloc < BlockSize
    requires jblk * n * BlockSize + kblk * BlockSize + 15 * n + 16 <= n * n
    requires iblk * BlockSize + kblk * BlockSize * n + 15 * n + 16 <= n * n
    requires aTile == LoadTile(a, n, jblk * n * BlockSize + kblk * BlockSize)
    requires bTile == LoadTile(b, n, iblk * BlockSize + kblk * BlockSize * n)
    requires c0 == Dot(a, b, n, jblk * BlockSize + jloc, iblk * BlockSize + iloc, kblk * BlockSize)
    ensures c == Dot(a, b, n, jblk * BlockSize + jloc, iblk * BlockSize + iloc, kblk * BlockSize + BlockSize)
  {
    c := c0;
    var kloc := 0;
    while kloc < BlockSize
      invariant 0 <= kloc <= BlockSize
      invariant c == Dot(a, b, n, jblk * BlockSize + jloc, iblk * BlockSize + iloc, kblk * BlockSize + kloc)
    {
      InnerStep(a, b, n, blocks, iblk, jblk, iloc, jloc, kblk, kloc, aTile, bTile);
      c := c + aTile[Slot(jloc, kloc)] * bTile[Slot(kloc, iloc)];
      kloc := kloc + 1;
    }
  }

  /** One work-item: local id (iloc, jloc) of work-group (iblk, jblk), so
      global id i = iblk * 16 + iloc, j = jblk * 16 + jloc. It accumulates
      over the tiles along the shared dimension, advancing the A base by 16
      and the B base by 16 * N per tile, and produces C(i, j), which is the
      full dot product of row j of A with column i of B. */
  method WorkItem(a: seq<int>, b: seq<int>, n: nat, iblk: nat, jblk: nat, iloc: nat, jloc: nat)
      returns (c: int)
    requires n % BlockSize == 0
    requires |a| == n * n && |b| == n * n
    requires iblk < n / BlockSize && jblk < n / BlockSize
    requires iloc < BlockSize && jloc < BlockSize
    ensures c == Dot(a, b, n, jblk * BlockSize + jloc, iblk * BlockSize + iloc, n)
  {
    var i := iblk * BlockSize + iloc;
    var j := jblk * BlockSize + jloc;
    var blocks := n / BlockSize;
    var aBase := jblk * n * BlockSize;
    var aInc := BlockSize;
    var bBase := iblk * BlockSize;
    var bInc := BlockSize * n;
    c := 0;
    var kblk := 0;
    while kblk < blocks
      invariant 0 <= kblk <= blocks
      invariant aBase == jblk * n * BlockSize + kblk * BlockSize
      invariant bBase == iblk * BlockSize + kblk * BlockSize * n
      invariant c == Dot(a, b, n, j, i, kblk * BlockSize)
    {
      TilesInside(n, blocks, jblk, iblk, kblk);
      var aTile := LoadTile(a, n, aBase);
      var bTile := LoadTile(b, n, bBase);
      c := AccumulateTile(a, b, n, blocks, iblk, jblk, iloc, jloc, kblk, aTile, bTile, c);
      NextRowOfTiles(kblk, n);
      aBase := aBase + aInc;
      bBase := bBase + bInc;
      kblk := kblk + 1;
    }
  }

  /** The whole N x N launch: every work-item writes `C[j * N + i]`, so C is
      the matrix product of A and B. */
  method MatMul(a: seq<int>, b: seq<int>, n: nat) returns (c: seq<int>)
    requires n % BlockSize == 0
    requires |a| == n * n && |b| == n * n
    ensures |c| == n * n
    ensures forall j: nat, i: nat :: j < n && i < n ==>
              Cell(n, j, i) < |c| && c[Cell(n, j, i)] == Dot(a, b, n, j, i, n)
  {
    c := seq(n * n, _ => 0);
    var j := 0;
    while j < n
      invariant 0 <= j <= n && |c| == n * n
      invariant forall r: nat, col: nat :: r < j && col < n ==>
                  Cell(n, r, col) < |c| && c[Cell(n, r, col)] == Dot(a, b, n, r, col, n)
    {
      var i := 0;
      while i < n
        invariant 0 <= i <= n && |c| == n * n
        invariant forall r: nat, col: nat :: (r < j || (r == j && col < i)) && col < n ==>
                    Cell(n, r, col) < |c| && c[Cell(n, r, col)] == Dot(a, b, n, r, col, n)
      {
        var v := WorkItem(a, b, n, i / BlockSize, j / BlockSize, i % BlockSize, j % BlockSize);
        CellBound(n, j, i);
        forall r: nat, col: nat | (r < j || (r == j && col < i)) && col < n
          ensures Cell(n, r, col) != Cell(n, j, i)
        {
          if Cell(n, r, col) == Cell(n, j, i) {
            CellInjective(n, r, col, j, i);
          }
        }
        c := c[Cell(n, j, i) := v];
        i := i + 1;
      }
      j := j + 1;
    }
  }
}
