/** `TileCanvas.TileWorld`: folding world block coordinates into a chunk index and a local
    offset (with Java's truncating `/` and `%`), and answering block queries through an
    abstract region and chunk. */
module TileWorld {
  import opened Wrappers
  import opened JavaLang

  /** The outcome of a call into code this model does not contain: it returns a value (which
      may be `null`, an `Option`) or throws. */
  datatype Call<T> = Returned(value: T) | Threw

  /** `Block.MAX_X`, `Block.MAX_Z`, `Block.MIN_Y` and `Block.MAX_Y`. Their values are not part of
      this model; only `Valid()` is relied on. */
  datatype Extents = Extents(maxX: int, maxZ: int, minY: int, maxY: int) {
    predicate Valid() {
      maxX > 0 && maxZ > 0 && minY < maxY
    }
  }

  /** The region the world wraps: `region.getChunk(chunkX, chunkZ)` and, for a chunk it
      returned, `chunk.getBlock(localX, y, localZ)`. */
  datatype World<!C, B> = World(getChunk: (int, int) -> Call<Option<C>>,
                               chunkBlock: (C, int, int, int) -> Call<Option<B>>)

  // Facts about Dafny's (Euclidean) division by a positive divisor, which is floor division.

  lemma FloorUnique(x: int, s: int, q: int)
    requires s > 0 && 0 <= x - s * q < s
    ensures q == x / s
  {
    var d := q - x / s;
    assert x == s * (x / s) + x % s;
    assert s * d == (x - s * (x / s)) - (x - s * q);
    if d != 0 {
      MulAtLeastFactor(s, d);
    }
  }

  lemma FloorMonotone(a: int, b: int, s: int)
    requires s > 0 && a <= b
    ensures a / s <= b / s
  {
    assert a == s * (a / s) + a % s && b == s * (b / s) + b % s;
    assert s * (b / s) + s == s * (b / s + 1);
    MulStrict(s, a / s, b / s + 1);
  }

  lemma MulStrict(s: int, p: int, r: int)
    requires s > 0 && s * p < s * r
    ensures p < r
  {
    if p >= r {
      MulMonotone(s, r, p);
    }
  }

  lemma {:induction false} MulMonotone(s: int, p: int, q: int)
    requires s > 0 && p <= q
    ensures s * p <= s * q
    decreases q - p
  {
    if p < q {
      MulMonotone(s, p, q - 1);
      assert s * q == s * (q - 1) + s;
    }
  }

  /** `divide(dividend, divisor)`: the truncating quotient, lowered by one for a negative
      dividend and a non-negative divisor. For a positive divisor it is floor division of a
      non-negative dividend, and floor division of `dividend - 1` for a negative one. */
  function Divide(dividend: int, divisor: int): (q: int)
    requires divisor != 0
    ensures divisor > 0 && dividend >= 0 ==> q == dividend / divisor
    ensures divisor > 0 && dividend < 0 ==> q == (dividend - 1) / divisor
    ensures divisor < 0 ==> q == JDiv(dividend, divisor)
  {
    var quotient := JDiv(dividend, divisor);
    var q := if dividend < 0 && divisor >= 0 then quotient - 1 else quotient;
    assert divisor > 0 ==> q == (if dividend >= 0 then dividend else dividend - 1) / divisor by {
      if divisor > 0 {
        if dividend >= 0 {
          FloorUnique(dividend, divisor, q);
        } else {
          FloorUnique(dividend - 1, divisor, q);
        }
      }
    }
    q
  }

  /** `modulus(dividend, divisor)`: the truncating remainder, lowered by one for any negative
      dividend. A non-negative dividend gets an offset in `[0, |divisor|)`; a negative one an
      offset in `[-|divisor|, -1]`, which is never a position inside a tile. */
  function Modulus(dividend: int, divisor: int): (m: int)
    requires divisor != 0
    ensures dividend >= 0 ==> 0 <= m < Abs(divisor)
    ensures dividend < 0 ==> -Abs(divisor) <= m <= -1
    ensures divisor > 0 && dividend >= 0 ==> m == dividend % divisor
    ensures divisor > 0 && dividend < 0 ==> m == (dividend - 1) % divisor - divisor
  {
    var modulo := JRem(dividend, divisor);
    var m := if dividend < 0 then modulo - 1 else modulo;
    assert divisor > 0 ==> m == (if dividend >= 0 then dividend % divisor else (dividend - 1) % divisor - divisor) by {
      if divisor > 0 {
        var q := Divide(dividend, divisor);
        if dividend >= 0 {
          assert m == dividend - divisor * q;
          assert dividend == divisor * (dividend / divisor) + dividend % divisor;
        } else {
          assert m == dividend - divisor * (q + 1) - 1;
          assert dividend - 1 == divisor * ((dividend - 1) / divisor) + (dividend - 1) % divisor;
        }
      }
    }
    m
  }

  /** The two folds used together: a non-negative coordinate is rebuilt from its tile and
      offset; a negative one is not (the sum is `x - size - 1`); what a negative coordinate
      gets is the floor fold of `x - 1`, with the offset shifted down by one tile size. */
  lemma {:induction false} FoldReconstruction(x: int, size: int)
    requires size > 0
    ensures x >= 0 ==> Divide(x, size) * size + Modulus(x, size) == x
    ensures x < 0 ==> Divide(x, size) * size + Modulus(x, size) == x - size - 1
    ensures x < 0 ==> x - 1 == Divide(x, size) * size + (Modulus(x, size) + size)
                      && 0 <= Modulus(x, size) + size < size
  {
    if x < 0 {
      assert x - 1 == size * ((x - 1) / size) + (x - 1) % size;
    } else {
      assert x == size * (x / size) + x % size;
    }
  }

  /** A larger coordinate never lies in a lower tile. */
  lemma DivideMonotone(x: int, y: int, size: int)
    requires size > 0 && x <= y
    ensures Divide(x, size) <= Divide(y, size)
  {
    var ex := if x < 0 then 1 else 0;
    var ey := if y < 0 then 1 else 0;
    FloorMonotone(x - ex, y - ey, size);
  }

  /** The boundary cases of the 16-wide tiles. */
  lemma FoldExamples()
    ensures Divide(0, 16) == 0 && Divide(15, 16) == 0 && Divide(16, 16) == 1
    ensures Divide(-1, 16) == -1 && Divide(-15, 16) == -1 && Divide(-16, 16) == -2
    ensures Modulus(20, 16) == 4 && Modulus(-1, 16) == -2 && Modulus(-3, 16) == -4
    ensures Modulus(-16, 16) == -1
  {
  }

  /** At an exact negative multiple `-k * size` the code's tile is one below the floor. */
  lemma {:induction false} DivideAtNegativeMultiple(k: int, size: int)
    requires k > 0 && size > 0
    ensures Divide(-k * size, size) == -k - 1
    ensures (-k * size) / size == -k
  {
    JDivUnique(-k * size, size, -k);
    FloorUnique(-k * size, size, -k);
  }

  /** A negative coordinate never gets an offset inside its tile, though floor modulus would
      give one; at `-1` the code answers `-2` where `size - 1` is meant (for tiles wider than one). */
  lemma ModulusNegativeOffsets(x: int, size: int)
    requires x < 0 && size > 0
    ensures Modulus(x, size) < 0 <= x % size
    ensures size > 1 ==> Modulus(-1, size) == -2 && (-1) % size == size - 1
  {
    if size > 1 {
      JDivUnique(-1, size, 0);
    }
    FloorUnique(-1, size, -1);
    assert -1 == size * ((-1) / size) + (-1) % size;
  }

  /** Floor division built from the truncating operator, as the folding is evidently meant:
      lowered by one only when a negative dividend leaves a remainder. */
  function FloorDivide(dividend: int, divisor: int): int
    requires divisor > 0
  {
    var quotient := JDiv(dividend, divisor);
    if JRem(dividend, divisor) < 0 then quotient - 1 else quotient
  }

  /** Floor modulus built from the truncating operator: a negative remainder is raised by one
      divisor. */
  function FloorModulus(dividend: int, divisor: int): int
    requires divisor > 0
  {
    var modulo := JRem(dividend, divisor);
    if modulo < 0 then modulo + divisor else modulo
  }

  /** The corrected folds are floor division and modulus: every coordinate is rebuilt from its
      tile and an offset inside the tile, and non-negative coordinates fold as in the code. */
  lemma FloorFoldCorrect(x: int, size: int)
    requires size > 0
    ensures FloorDivide(x, size) == x / size && FloorModulus(x, size) == x % size
    ensures FloorDivide(x, size) * size + FloorModulus(x, size) == x
    ensures 0 <= FloorModulus(x, size) < size
    ensures x >= 0 ==> FloorDivide(x, size) == Divide(x, size) && FloorModulus(x, size) == Modulus(x, size)
  {
    var q := FloorDivide(x, size);
    assert 0 <= x - size * q < size;
    FloorUnique(x, size, q);
    assert x == size * (x / size) + x % size;
  }

  /** `region.getChunk(chunkX, chunkZ)`, with a thrown exception caught and turned into `null`. */
  function ChunkAt<C, B>(w: World<C, B>, chunkX: int, chunkZ: int): (r: Option<C>)
    ensures w.getChunk(chunkX, chunkZ).Threw? ==> r == None
    ensures w.getChunk(chunkX, chunkZ).Returned? ==> r == w.getChunk(chunkX, chunkZ).value
  {
    match w.getChunk(chunkX, chunkZ)
    case Returned(c) => c
    case Threw => None
  }

  /** `getChunkFor(x, z)`: the chunk of the tile that `divide` folds `x` and `z` into, or `null`
      when there is none or the lookup throws. */
  function GetChunkFor<C, B>(w: World<C, B>, ext: Extents, x: int, z: int): (r: Option<C>)
    requires ext.Valid()
    ensures r == ChunkAt(w, Divide(x, ext.maxX), Divide(z, ext.maxZ))
    ensures w.getChunk(Divide(x, ext.maxX), Divide(z, ext.maxZ)).Threw? ==> r.None?
  {
    ChunkAt(w, Divide(x, ext.maxX), Divide(z, ext.maxZ))
  }

  /** `getBlock(x, y, z)`: `null` without a chunk; otherwise the chunk's block at the offsets
      `modulus` gives, with `y` unchanged. An exception of the chunk's own `getBlock` is not
      caught. */
  function GetBlock<C, B>(w: World<C, B>, ext: Extents, x: int, y: int, z: int): (r: Call<Option<B>>)
    requires ext.Valid()
    ensures GetChunkFor(w, ext, x, z).None? ==> r == Returned(None)
    ensures GetChunkFor(w, ext, x, z).Some? ==>
              r == w.chunkBlock(GetChunkFor(w, ext, x, z).value, Modulus(x, ext.maxX), y, Modulus(z, ext.maxZ))
  {
    match GetChunkFor(w, ext, x, z)
    case None => Returned(None)
    case Some(chunk) => w.chunkBlock(chunk, Modulus(x, ext.maxX), y, Modulus(z, ext.maxZ))
  }

  /** With 16-wide chunks the block at world `(20, 70, -3)` is looked up in chunk `(1, -1)` at
      offsets `(4, 70, -4)`. */
  lemma GetBlockExample<C, B>(w: World<C, B>)
    ensures GetBlock(w, Extents(16, 16, 0, 128), 20, 70, -3)
         == match ChunkAt(w, 1, -1)
            case None => Returned(None)
            case Some(c) => w.chunkBlock(c, 4, 70, -4)
  {
    FoldExamples();
  }

  /** `getBlock` with the corrected folds: every block of the world is looked up in its own
      chunk at an offset inside that chunk. */
  function GetBlockCorrected<C, B>(w: World<C, B>, ext: Extents, x: int, y: int, z: int): (r: Call<Option<B>>)
    requires ext.Valid()
    ensures x >= 0 && z >= 0 ==> r == GetBlock(w, ext, x, y, z)
  {
    FloorFoldCorrect(x, ext.maxX);
    FloorFoldCorrect(z, ext.maxZ);
    match ChunkAt(w, FloorDivide(x, ext.maxX), FloorDivide(z, ext.maxZ))
    case None => Returned(None)
    case Some(chunk) => w.chunkBlock(chunk, FloorModulus(x, ext.maxX), y, FloorModulus(z, ext.maxZ))
  }

  /** The corrected lookup addresses each world column `(x, z)` by a chunk and an in-range
      offset that together rebuild it. */
  lemma CorrectedAddressing<C, B>(w: World<C, B>, ext: Extents, x: int, y: int, z: int)
    requires ext.Valid()
    ensures var cx, lx := FloorDivide(x, ext.maxX), FloorModulus(x, ext.maxX);
            var cz, lz := FloorDivide(z, ext.maxZ), FloorModulus(z, ext.maxZ);
            && 0 <= lx < ext.maxX && 0 <= lz < ext.maxZ
            && cx * ext.maxX + lx == x && cz * ext.maxZ + lz == z
            && GetBlockCorrected(w, ext, x, y, z)
               == match ChunkAt(w, cx, cz)
                  case None => Returned(None)
                  case Some(chunk) => w.chunkBlock(chunk, lx, y, lz)
  {
    FloorFoldCorrect(x, ext.maxX);
    FloorFoldCorrect(z, ext.maxZ);
  }
}
