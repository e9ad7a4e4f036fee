/**
 * The difference hash ("dhash") of a frame and the Hamming distance between
 * two hashes. The same two functions are written out four times in the
 * repository (the new crate's filter and screenshot modules, the old tree's
 * capture utilities and its capture worker); this module is the one model of
 * all four.
 *
 * Resizing the frame to 9x8 and converting it to grey are done by an image
 * library and are not modelled: the hash takes the resulting grey grid as
 * input, `grid[y][x]` being the pixel in row y, column x.
 *
 * Loop counters and bit positions are 32-bit unsigned values, as in the
 * source, so that the shifts are shifts by a bit-vector amount.
 */
module PerceptualHash {

  /** An 8-bit grey level. */
  type Grey = g: int | 0 <= g < 256

  predicate IsGrid(g: seq<seq<Grey>>) {
    |g| == 8 && forall y :: 0 <= y < |g| ==> |g[y]| == 9
  }

  /** The 9-wide, 8-high grey thumbnail of a frame. */
  type Grid = g: seq<seq<Grey>> | IsGrid(g) witness seq(8, _ => seq(9, _ => 0))

  /**
   * A captured frame. The model looks at pixel data only through the grey
   * thumbnail the hash is computed from, so that is all a frame carries.
   */
  datatype RawImage = RawImage(thumbnail: Grid)

  // ---------------------------------------------------------------------------
  // Bits of a 64-bit word
  // ---------------------------------------------------------------------------

  predicate BitSet(h: bv64, k: bv32)
    requires k < 64
  {
    (h >> k) & 1 == 1
  }

  function Bit(h: bv64, k: bv32): nat
    requires k < 64
  {
    if BitSet(h, k) then 1 else 0
  }

  /** `h` with bit n set when `b` holds, unchanged otherwise. */
  function SetBitIf(h: bv64, b: bool, n: bv32): bv64
    requires n < 64
  {
    if b then h | (1 << n) else h
  }

  lemma OrBit(h: bv64, m: bv64, k: bv32)
    requires k < 64
    ensures ((h | m) >> k) & 1 == ((h >> k) & 1) | ((m >> k) & 1)
  {
  }

  lemma SingleBit(n: bv32, k: bv32)
    requires n < 64 && k < 64
    ensures ((1 as bv64 << n) >> k) & 1 == (if k == n then 1 else 0)
  {
  }

  lemma SetBitIfBits(h: bv64, b: bool, n: bv32, k: bv32)
    requires n < 64 && k < 64
    ensures BitSet(SetBitIf(h, b, n), k) <==> BitSet(h, k) || (b && k == n)
  {
    if b {
      OrBit(h, 1 << n, k);
      SingleBit(n, k);
    }
  }

  lemma NoBitOfZero(k: bv32)
    requires k < 64
    ensures !BitSet(0, k)
  {
  }

  // ---------------------------------------------------------------------------
  // dhash
  // ---------------------------------------------------------------------------

  /** Bit position of the comparison at column x of row y; it decodes back to (x, y). */
  function BitIndex(x: bv32, y: bv32): (k: bv32)
    requires x < 8 && y < 8
    ensures k < 64
    ensures k as int == y as int * 8 + x as int
  {
    y * 8 + x
  }

  /** Outcome of the k-th comparison in row-major order: is the left pixel darker than its right neighbour? */
  function Comparisons(g: Grid): (c: seq<bool>)
    ensures |c| == 64
    ensures forall k :: 0 <= k < 64 ==> c[k] == (g[k / 8][k % 8] < g[k / 8][k % 8 + 1])
  {
    seq(64, k requires 0 <= k < 64 => g[k / 8][k % 8] < g[k / 8][k % 8 + 1])
  }

  /** The hash after the first n comparisons. */
  function HashPrefix(c: seq<bool>, n: bv32): bv64
    requires |c| == 64 && n <= 64
    decreases n as int
  {
    if n == 0 then 0 else SetBitIf(HashPrefix(c, n - 1), c[(n - 1) as int], n - 1)
  }

  /** The difference hash of a thumbnail: bit k is set exactly when the k-th comparison holds. */
  function DhashOf(g: Grid): (h: bv64)
    ensures forall k: bv32 :: k < 64 ==> (BitSet(h, k) <==> Comparisons(g)[k as int])
  {
    AllHashBits(Comparisons(g));
    HashPrefix(Comparisons(g), 64)
  }

  /** After all 64 comparisons, bit k is set exactly when comparison k held. */
  lemma AllHashBits(c: seq<bool>)
    requires |c| == 64
    ensures forall k: bv32 :: k < 64 ==> (BitSet(HashPrefix(c, 64), k) <==> c[k as int])
  {
    forall k: bv32 | k < 64
      ensures BitSet(HashPrefix(c, 64), k) <==> c[k as int]
    {
      HashPrefixBits(c, 64, k);
    }
  }

  lemma {:induction false} HashPrefixBits(c: seq<bool>, n: bv32, k: bv32)
    requires |c| == 64 && n <= 64 && k < 64
    ensures BitSet(HashPrefix(c, n), k) <==> k < n && c[k as int]
    decreases n as int
  {
    if n == 0 {
      NoBitOfZero(k);
    } else {
      HashPrefixBits(c, n - 1, k);
      SetBitIfBits(HashPrefix(c, n - 1), c[(n - 1) as int], n - 1, k);
    }
  }

  /** Bit y*8+x of the hash is set exactly when pixel (x, y) is darker than pixel (x+1, y). */
  lemma DhashBit(g: Grid, x: bv32, y: bv32)
    requires x < 8 && y < 8
    ensures BitSet(DhashOf(g), BitIndex(x, y)) <==> g[y as int][x as int] < g[y as int][x as int + 1]
  {
    var kb := BitIndex(x, y);
    HashPrefixBits(Comparisons(g), 64, kb);
    var k := kb as int;
    assert k / 8 == y as int && k % 8 == x as int;
    assert Comparisons(g)[k] == (g[k / 8][k % 8] < g[k / 8][k % 8 + 1]);
  }

  /** One step of the scan of `Dhash`: visiting pixel (x, y) extends the hash by one comparison. */
  lemma ScanStep(g: Grid, y: bv32, x: bv32, before: bv64, after: bv64)
    requires y < 8 && x < 8
    requires before == HashPrefix(Comparisons(g), y * 8 + x)
    requires after == if g[y as int][x as int] < g[y as int][x as int + 1] then before | (1 << (y * 8 + x)) else before
    ensures after == HashPrefix(Comparisons(g), y * 8 + (x + 1))
  {
    var k := y * 8 + x;
    ScanIndex(y, x);
    ScanCompare(g, y, x);
    ScanSet(Comparisons(g), k, g[y as int][x as int] < g[y as int][x as int + 1], before, after);
  }

  /** The comparison at bit position y*8+x is the one of pixel (x, y) with its right neighbour. */
  lemma ScanCompare(g: Grid, y: bv32, x: bv32)
    requires y < 8 && x < 8
    ensures y * 8 + x < 64
    ensures Comparisons(g)[(y * 8 + x) as int] == (g[y as int][x as int] < g[y as int][x as int + 1])
  {
    ScanIndex(y, x);
    CompareAt(g, y as int, x as int);
  }

  /** Setting bit k when comparison k holds extends the hash by that comparison. */
  lemma ScanSet(c: seq<bool>, k: bv32, b: bool, before: bv64, after: bv64)
    requires |c| == 64 && k < 64 && c[k as int] == b
    requires before == HashPrefix(c, k)
    requires after == if b then before | (1 << k) else before
    ensures after == HashPrefix(c, k + 1)
  {
    SetBitIfUnfold(before, b, k);
    PrefixStep(c, k);
  }

  lemma SetBitIfUnfold(h: bv64, b: bool, n: bv32)
    requires n < 64
    ensures SetBitIf(h, b, n) == if b then h | (1 << n) else h
  {
  }

  /** Bit position y*8+x, computed on 32 bits, does not wrap around. */
  lemma ScanIndex(y: bv32, x: bv32)
    requires y < 8 && x < 8
    ensures y * 8 + x < 64 && (y * 8 + x) as int == y as int * 8 + x as int
    ensures y * 8 + x + 1 == y * 8 + (x + 1)
  {
  }

  /** One more comparison sets one more bit, or none. */
  lemma PrefixStep(c: seq<bool>, n: bv32)
    requires |c| == 64 && n < 64
    ensures HashPrefix(c, n + 1) == SetBitIf(HashPrefix(c, n), c[n as int], n)
  {
    assert n + 1 - 1 == n;
  }

  /** The comparison at position y*8+x is the one of pixel (x, y) with its right neighbour. */
  lemma CompareAt(g: Grid, y: int, x: int)
    requires 0 <= y < 8 && 0 <= x < 8
    ensures Comparisons(g)[y * 8 + x] == (g[y][x] < g[y][x + 1])
  {
    var k := y * 8 + x;
    assert k / 8 == y && k % 8 == x;
  }

  /**
   * The bit-extraction loop of `dhash`: scan the rows top to bottom and each
   * row left to right, and set bit y*8+x when the left pixel is darker.
   * Since the result is a function of the grid, equal grids hash equally.
   */
  method Dhash(g: Grid) returns (hash: bv64)
    ensures hash == DhashOf(g)
  {
    hash := 0;
    var y: bv32 := 0;
    while y < 8
      invariant y <= 8
      invariant hash == HashPrefix(Comparisons(g), y * 8)
      decreases 8 - y as int
    {
      var x: bv32 := 0;
      while x < 8
        invariant x <= 8
        invariant hash == HashPrefix(Comparisons(g), y * 8 + x)
        decreases 8 - x as int
      {
        ghost var before := hash;
        var left := g[y as int][x as int];
        var right := g[y as int][x as int + 1];
        if left < right {
          hash := hash | (1 << (y * 8 + x));
        }
        ScanStep(g, y, x, before, hash);
        x := x + 1;
      }
      assert x == 8;
      assert y * 8 + x == (y + 1) * 8;
      y := y + 1;
    }
  }

  // ---------------------------------------------------------------------------
  // Hamming distance
  // ---------------------------------------------------------------------------

  /** Number of set bits among the n lowest bits of h. */
  function PopCount(h: bv64, n: bv32): (c: nat)
    requires n <= 64
    ensures c <= n as int
    decreases n as int
  {
    if n == 0 then 0 else PopCount(h, n - 1) + Bit(h, n - 1)
  }

  /** `hamming_distance`: the population count of `a ^ b`. */
  function HammingDistance(a: bv64, b: bv64): (d: nat)
    ensures d <= 64
  {
    PopCount(a ^ b, 64)
  }

  /** All of the n lowest bits of h are clear. */
  predicate LowBitsZero(h: bv64, n: bv32)
    requires n <= 64
    decreases n as int
  {
    n == 0 || (LowBitsZero(h, n - 1) && Bit(h, n - 1) == 0)
  }

  lemma {:induction false} PopCountZero(h: bv64, n: bv32)
    requires n <= 64
    ensures PopCount(h, n) == 0 <==> LowBitsZero(h, n)
    decreases n as int
  {
    if n > 0 {
      PopCountZero(h, n - 1);
    }
  }

  lemma LowBitsStep(h: bv64, n: bv32)
    requires 0 < n <= 64
    ensures h << (64 - (n - 1)) == 0 && Bit(h, n - 1) == 0 ==> h << (64 - n) == 0
  {
  }

  lemma {:induction false} LowBitsShift(h: bv64, n: bv32)
    requires n <= 64
    ensures LowBitsZero(h, n) ==> h << (64 - n) == 0
    decreases n as int
  {
    if n > 0 {
      LowBitsShift(h, n - 1);
      LowBitsStep(h, n);
    }
  }

  lemma {:induction false} ZeroHasNoLowBits(n: bv32)
    requires n <= 64
    ensures LowBitsZero(0, n)
    decreases n as int
  {
    if n > 0 {
      ZeroHasNoLowBits(n - 1);
    }
  }

  lemma XorZero(a: bv64, b: bv64)
    ensures (a ^ b) << (64 - 64 as bv32) == 0 <==> a == b
  {
    assert (a ^ b) << (64 - 64 as bv32) == a ^ b;
  }

  /** The distance is 0 exactly when the two hashes are equal. */
  lemma HammingZeroIff(a: bv64, b: bv64)
    ensures HammingDistance(a, b) == 0 <==> a == b
  {
    PopCountZero(a ^ b, 64);
    LowBitsShift(a ^ b, 64);
    XorZero(a, b);
    if a == b {
      assert a ^ b == 0;
      ZeroHasNoLowBits(64);
    }
  }

  lemma HammingSymmetric(a: bv64, b: bv64)
    ensures HammingDistance(a, b) == HammingDistance(b, a)
  {
    assert a ^ b == b ^ a;
  }

  /** The same frame hashed twice is at distance 0 from itself. */
  lemma SameFrameDistanceZero(g: Grid)
    ensures HammingDistance(DhashOf(g), DhashOf(g)) == 0
  {
    HammingZeroIff(DhashOf(g), DhashOf(g));
  }

  lemma HighBitClear(h: bv64, m: bv32, k: bv32)
    requires m <= k < 64 && h >> m == 0
    ensures Bit(h, k) == 0
  {
  }

  /** Bits at or above m do not contribute when h has none. */
  lemma {:induction false} PopCountHigh(h: bv64, m: bv32, n: bv32)
    requires m <= n <= 64 && h >> m == 0
    ensures PopCount(h, n) == PopCount(h, m)
    decreases n as int
  {
    if n > m {
      PopCountHigh(h, m, n - 1);
      HighBitClear(h, m, n - 1);
    }
  }

  /** The distances the source's unit test expects. */
  lemma HammingTestValues()
    ensures HammingDistance(0, 0) == 0
    ensures HammingDistance(1, 0) == 1
    ensures HammingDistance(0xF, 0) == 4
    ensures HammingDistance(0xFF, 0) == 8
  {
    PopCountHigh(0, 0, 64);
    PopCountHigh(1, 1, 64);
    assert PopCount(1, 1) == 1;
    PopCountHigh(0xF, 4, 64);
    assert PopCount(0xF, 4) == 4 by {
      assert PopCount(0xF, 1) == 1;
      assert PopCount(0xF, 2) == 2;
      assert PopCount(0xF, 3) == 3;
    }
    PopCountHigh(0xFF, 8, 64);
    assert PopCount(0xFF, 8) == 8 by {
      assert PopCount(0xFF, 1) == 1;
      assert PopCount(0xFF, 2) == 2;
      assert PopCount(0xFF, 3) == 3;
      assert PopCount(0xFF, 4) == 4;
      assert PopCount(0xFF, 5) == 5;
      assert PopCount(0xFF, 6) == 6;
      assert PopCount(0xFF, 7) == 7;
    }
  }
}
