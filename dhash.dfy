/** The difference-hash processor of perceptual/DHashProcessor.java: a fingerprint made of
    one bit per pair of horizontally adjacent cells of a hashSize x hashSize grey raster,
    and a similarity test on the Hamming distance between two fingerprints. */
module DHash {
  import opened Raster

  /** DHashProcessor(hashSize, minSimilarityThreshold). The float threshold is held as the
      exact rational thresholdNum / thresholdDen. */
  datatype DHashProcessor = DHashProcessor(hashSize: int, thresholdNum: int, thresholdDen: int)

  /** The hash size is positive and its square fits the int the source stores it in. */
  predicate Valid(p: DHashProcessor) {
    1 <= p.hashSize && p.hashSize * p.hashSize <= IntMax && 0 < p.thresholdDen
  }

  /** The processor the recognizer builds: new DHashProcessor(16, 0.845f). The float 0.845f
      is exactly 3544187 / 2^22. */
  const Default: DHashProcessor := DHashProcessor(16, 3544187, 4194304)

  /** An image as getRGB sees it: its size and the packed pixel at each (x, y). */
  datatype Picture = Picture(width: nat, height: nat, rgb: (int, int) -> int)

  /** resizeImage: from the pixels of a cropped image, the raster of the grey
      hashSize x hashSize image it is drawn into. The resampling itself is not modelled. */
  type Resampler = Grid -> ((int, int) -> int)

  function PictureGrid(p: Picture): (g: Grid)
    ensures |g| == p.width && IsGrid(g, p.height)
    ensures forall x, y :: 0 <= x < p.width && 0 <= y < p.height ==> g[x][y] == p.rgb(x, y)
  {
    seq(p.width, x => seq(p.height, y => p.rgb(x, y)))
  }

  // ---------------------------------------------------------------- fingerprint

  predicate IsBinary(s: string) {
    forall k :: 0 <= k < |s| ==> s[k] == '0' || s[k] == '1'
  }

  /** The difference bit of cell (x, y): '1' iff it is strictly greater than its right neighbour. */
  function Bit(g: Grid, x: int, y: int): char
    requires 0 <= x && x + 1 < |g| && 0 <= y < |g[x]| && y < |g[x + 1]|
  {
    if g[x][y] > g[x + 1][y] then '1' else '0'
  }

  /** The bits of the first `rows` cells of column pair (x, x + 1), top to bottom. */
  function ColumnBits(g: Grid, height: nat, x: int, rows: nat): (s: string)
    requires IsGrid(g, height) && 0 <= x && x + 1 < |g| && rows <= height
    ensures |s| == rows
  {
    if rows == 0 then [] else ColumnBits(g, height, x, rows - 1) + [Bit(g, x, rows - 1)]
  }

  lemma {:induction false} ColumnBitsAt(g: Grid, height: nat, x: int, rows: nat, y: int)
    requires IsGrid(g, height) && 0 <= x && x + 1 < |g| && 0 <= y < rows <= height
    ensures ColumnBits(g, height, x, rows)[y] == Bit(g, x, y)
  {
    if y < rows - 1 {
      ColumnBitsAt(g, height, x, rows - 1, y);
    }
  }

  /** The bits of the first n column pairs, in the order getHorizontalDifferences appends
      them: the outer loop runs over x, the inner one over y. */
  function Differences(g: Grid, height: nat, n: nat): (s: string)
    requires IsGrid(g, height) && n < |g|
    ensures |s| == LengthOf(n, height)
  {
    if n == 0 then [] else Differences(g, height, n - 1) + ColumnBits(g, height, n - 1, height)
  }

  /** n * height, out of the solver's sight so that lengths stay linear facts. */
  function LengthOf(n: nat, height: nat): nat {
    if n == 0 then 0 else LengthOf(n - 1, height) + height
  }

  lemma {:induction false} LengthOfIsProduct(n: nat, height: nat)
    ensures LengthOf(n, height) == n * height
  {
    if n > 0 {
      LengthOfIsProduct(n - 1, height);
      assert (n - 1) * height + height == n * height;
    }
  }

  lemma {:induction false} ColumnBitsBinary(g: Grid, height: nat, x: int, rows: nat)
    requires IsGrid(g, height) && 0 <= x && x + 1 < |g| && rows <= height
    ensures IsBinary(ColumnBits(g, height, x, rows))
  {
    if rows > 0 {
      ColumnBitsBinary(g, height, x, rows - 1);
    }
  }

  /** The differences hold nothing but '0' and '1'. */
  lemma {:induction false} DifferencesBinary(g: Grid, height: nat, n: nat)
    requires IsGrid(g, height) && n < |g|
    ensures IsBinary(Differences(g, height, n))
  {
    if n > 0 {
      DifferencesBinary(g, height, n - 1);
      ColumnBitsBinary(g, height, n - 1, height);
    }
  }

  /** The fingerprint of a grid with at least one column. */
  function Fingerprint(g: Grid, height: nat): string
    requires IsGrid(g, height) && 0 < |g|
  {
    Differences(g, height, |g| - 1)
  }

  /** Bit LengthOf(x, height) + y of the differences is the difference bit of cell (x, y). */
  lemma {:induction false} DifferencesAtLength(g: Grid, height: nat, n: nat, x: nat, y: int)
    requires IsGrid(g, height) && n < |g| && x < n && 0 <= y < height
    ensures LengthOf(x, height) + y < |Differences(g, height, n)|
    ensures Differences(g, height, n)[LengthOf(x, height) + y] == Bit(g, x, y)
  {
    if x < n - 1 {
      DifferencesAtLength(g, height, n - 1, x, y);
    } else {
      assert LengthOf(x, height) == |Differences(g, height, n - 1)|;
      ColumnBitsAt(g, height, x, height, y);
    }
  }

  /** Bit x * height + y of the differences of the first n column pairs is the difference
      bit of cell (x, y). */
  lemma DifferencesAt(g: Grid, height: nat, n: nat, x: nat, y: int)
    requires IsGrid(g, height) && n < |g| && x < n && 0 <= y < height
    ensures x * height + y < |Differences(g, height, n)|
    ensures Differences(g, height, n)[x * height + y] == Bit(g, x, y)
  {
    DifferencesAtLength(g, height, n, x, y);
    LengthOfIsProduct(x, height);
  }

  // ---------------------------------------------------------------- distance

  /** The number of positions at which two strings of equal length differ. */
  function Hamming(a: string, b: string): nat
    requires |a| == |b|
  {
    if |a| == 0 then 0
    else Hamming(a[..|a| - 1], b[..|b| - 1]) + (if a[|a| - 1] != b[|a| - 1] then 1 else 0)
  }

  /** getDistance: the Hamming distance, or Integer.MAX_VALUE for strings of different lengths. */
  function Distance(h1: string, h2: string): int {
    if |h1| != |h2| then IntMax else Hamming(h1, h2)
  }

  function DifferingPositions(a: string, b: string): set<int>
    requires |a| == |b|
  {
    set i | 0 <= i < |a| && a[i] != b[i]
  }

  /** Hamming counts exactly the positions at which the strings differ. */
  lemma {:induction false} HammingCountsDifferences(a: string, b: string)
    requires |a| == |b|
    ensures Hamming(a, b) == |DifferingPositions(a, b)|
  {
    if |a| > 0 {
      var n := |a| - 1;
      HammingCountsDifferences(a[..n], b[..n]);
      var before := DifferingPositions(a[..n], b[..n]);
      if a[n] != b[n] {
        assert DifferingPositions(a, b) == before + {n};
      } else {
        assert DifferingPositions(a, b) == before;
      }
    }
  }

  lemma {:induction false} HammingAtMostLength(a: string, b: string)
    requires |a| == |b|
    ensures Hamming(a, b) <= |a|
  {
    if |a| > 0 {
      HammingAtMostLength(a[..|a| - 1], b[..|b| - 1]);
    }
  }

  /** Distance zero means equal strings, both ways. */
  lemma {:induction false} HammingZeroIffEqual(a: string, b: string)
    requires |a| == |b|
    ensures Hamming(a, b) == 0 <==> a == b
  {
    if |a| > 0 {
      var n := |a| - 1;
      HammingZeroIffEqual(a[..n], b[..n]);
      if a[..n] == b[..n] && a[n] == b[n] {
        assert a == a[..n] + [a[n]] && b == b[..n] + [b[n]];
      }
    }
  }

  lemma {:induction false} HammingSymmetric(a: string, b: string)
    requires |a| == |b|
    ensures Hamming(a, b) == Hamming(b, a)
  {
    if |a| > 0 {
      HammingSymmetric(a[..|a| - 1], b[..|b| - 1]);
    }
  }

  /** getDistance's loop. */
  method GetDistance(h1: string, h2: string) returns (distance: int)
    ensures distance == Distance(h1, h2)
  {
    if |h1| != |h2| {
      return IntMax;
    }
    var length := |h1|;
    distance := 0;
    var i := 0;
    while i < length
      invariant 0 <= i <= length
      invariant distance == Hamming(h1[..i], h2[..i])
    {
      assert h1[..i + 1][..i] == h1[..i] && h2[..i + 1][..i] == h2[..i];
      if h1[i] != h2[i] {
        distance := distance + 1;
      }
      i := i + 1;
    }
    assert h1[..length] == h1 && h2[..length] == h2;
  }

  // ---------------------------------------------------------------- similarity

  /** areSimilar: 1 - distance / hashSize^2 > threshold, decided by cross-multiplying
      (hashSize^2 and the threshold's denominator are positive). */
  predicate AreSimilar(p: DHashProcessor, h1: string, h2: string)
    requires Valid(p)
    ensures AreSimilar(p, h1, h2) ==> p.thresholdNum < p.thresholdDen
    ensures AreSimilar(p, h1, h2) && 0 <= p.thresholdNum ==> Distance(h1, h2) < p.hashSize * p.hashSize
  {
    var m := p.hashSize * p.hashSize;
    var d := Distance(h1, h2);
    assert p.thresholdDen * (m - d) > p.thresholdNum * m ==>
      p.thresholdNum < p.thresholdDen && (0 <= p.thresholdNum ==> d < m) by {
      SquarePositive(p.hashSize);
      assert p.thresholdDen * d >= 0;
      assert p.thresholdDen * (m - d) > p.thresholdNum * m ==> (p.thresholdDen - p.thresholdNum) * m > 0;
      assert 0 <= p.thresholdNum ==> p.thresholdNum * m >= 0;
    }
    p.thresholdDen * (m - d) > p.thresholdNum * m
  }

  lemma SquarePositive(k: int)
    requires 1 <= k
    ensures 1 <= k * k
  {
    assert k * k == k * (k - 1) + k;
    assert 0 <= k * (k - 1);
  }

  /** For positive m and q: 1 - d / m > n / q iff q * (m - d) > n * m. */
  lemma CrossMultiply(d: real, n: real, m: real, q: real)
    requires 0.0 < m && 0.0 < q
    ensures 1.0 - d / m > n / q <==> q * (m - d) > n * m
  {
    var s, t, k := 1.0 - d / m, n / q, q * m;
    assert d / m * m == d;
    assert s * m == m - d;
    assert t * q == n;
    assert q * (m - d) == s * k;
    assert n * m == t * k;
    assert 0.0 < k;
    if s > t {
      assert (s - t) * k > 0.0;
    } else {
      assert (t - s) * k >= 0.0;
    }
  }

  /** The cross-multiplied test is the source's formula over the reals: the similarity
      1 - distance / hashSize^2 exceeds the threshold. */
  lemma SimilarityFormula(p: DHashProcessor, h1: string, h2: string)
    requires Valid(p)
    ensures AreSimilar(p, h1, h2) <==>
      1.0 - (Distance(h1, h2) as real) / ((p.hashSize * p.hashSize) as real)
        > (p.thresholdNum as real) / (p.thresholdDen as real)
  {
    var m := p.hashSize * p.hashSize;
    SquarePositive(p.hashSize);
    var d := Distance(h1, h2);
    CrossMultiply(d as real, p.thresholdNum as real, m as real, p.thresholdDen as real);
    assert ((p.thresholdDen * (m - d)) as real) == (p.thresholdDen as real) * ((m as real) - (d as real));
    assert ((p.thresholdNum * m) as real) == (p.thresholdNum as real) * (m as real);
  }

  /** Every hash is similar to itself when the threshold is below 1. */
  lemma SimilarToItself(p: DHashProcessor, h: string)
    requires Valid(p) && p.thresholdNum < p.thresholdDen
    ensures AreSimilar(p, h, h)
  {
    HammingZeroIffEqual(h, h);
    var m := p.hashSize * p.hashSize;
    assert (p.thresholdDen - p.thresholdNum) * m > 0;
  }

  lemma SimilarSymmetric(p: DHashProcessor, h1: string, h2: string)
    requires Valid(p)
    ensures AreSimilar(p, h1, h2) == AreSimilar(p, h2, h1)
  {
    if |h1| == |h2| {
      HammingSymmetric(h1, h2);
    }
  }

  /** The Integer.MAX_VALUE sentinel keeps hashes of different lengths apart under any
      non-negative threshold. */
  lemma UnequalLengthsNeverSimilar(p: DHashProcessor, h1: string, h2: string)
    requires Valid(p) && 0 <= p.thresholdNum && |h1| != |h2|
    ensures !AreSimilar(p, h1, h2)
  {
    var m := p.hashSize * p.hashSize;
    assert p.thresholdDen * (m - IntMax) <= 0 by {
      assert p.thresholdDen * (IntMax - m) >= 0;
    }
    assert p.thresholdNum * m >= 0;
  }

  /** With hashSize 16 and 0.845f, hashes of equal length are similar iff they differ in
      at most 39 positions; the decimal 845/1000 gives the same answers. */
  lemma DefaultSimilarIffAtMost39(h1: string, h2: string)
    ensures Valid(Default)
    ensures AreSimilar(Default, h1, h2) <==> |h1| == |h2| && Hamming(h1, h2) <= 39
    ensures AreSimilar(Default, h1, h2) == AreSimilar(DHashProcessor(16, 845, 1000), h1, h2)
  {
    if |h1| != |h2| {
      UnequalLengthsNeverSimilar(Default, h1, h2);
      UnequalLengthsNeverSimilar(DHashProcessor(16, 845, 1000), h1, h2);
    }
  }

  // ---------------------------------------------------------------- hashing

  /** getMatrix: copies the image's pixels into a width x height matrix. */
  method GetMatrix(image: Picture) returns (matrix: array2<int>)
    ensures fresh(matrix)
    ensures matrix.Length0 == image.width && matrix.Length1 == image.height
    ensures forall x, y :: 0 <= x < image.width && 0 <= y < image.height ==>
      matrix[x, y] == image.rgb(x, y)
  {
    var width, height := image.width, image.height;
    matrix := new int[width, height];
    var x := 0;
    while x < width
      invariant 0 <= x <= width
      invariant forall i, j :: 0 <= i < x && 0 <= j < height ==> matrix[i, j] == image.rgb(i, j)
    {
      var y := 0;
      while y < height
        invariant 0 <= y <= height
        invariant forall i, j :: 0 <= i < x && 0 <= j < height ==> matrix[i, j] == image.rgb(i, j)
        invariant forall j :: 0 <= j < y ==> matrix[x, j] == image.rgb(x, j)
      {
        matrix[x, y] := image.rgb(x, y);
        y := y + 1;
      }
      x := x + 1;
    }
  }

  /** getHorizontalDifferences: appends one bit per pair of horizontally adjacent cells. */
  method GetHorizontalDifferences(matrix: array2<int>) returns (hash: string)
    requires 0 < matrix.Length0
    ensures hash == Fingerprint(Cells(matrix), matrix.Length1)
    ensures |hash| == (matrix.Length0 - 1) * matrix.Length1
  {
    ghost var g := Cells(matrix);
    var width, height := matrix.Length0, matrix.Length1;
    hash := [];
    var i := 0;
    while i < width - 1
      invariant 0 <= i <= width - 1
      invariant hash == Differences(g, height, i)
    {
      ghost var done := hash;
      var j := 0;
      while j < height
        invariant 0 <= j <= height
        invariant hash == done + ColumnBits(g, height, i, j)
      {
        var bit := if matrix[i, j] > matrix[i + 1, j] then '1' else '0';
        assert bit == Bit(g, i, j) by {
          assert g[i][j] == matrix[i, j] && g[i + 1][j] == matrix[i + 1, j];
        }
        hash := hash + [bit];
        j := j + 1;
      }
      i := i + 1;
    }
    assert |g| - 1 == i;
    LengthOfIsProduct(i, height);
  }

  /** calculateHash on an image already resized to hashSize x hashSize: a fingerprint of
      hashSize * (hashSize - 1) bits whose bit x * hashSize + y compares pixel (x, y) with
      its right neighbour. */
  method CalculateHash(p: DHashProcessor, resized: Picture) returns (hash: string)
    requires Valid(p) && resized.width == p.hashSize && resized.height == p.hashSize
    ensures hash == Fingerprint(PictureGrid(resized), p.hashSize)
    ensures |hash| == p.hashSize * (p.hashSize - 1) && IsBinary(hash)
    ensures forall x, y :: 0 <= x < p.hashSize - 1 && 0 <= y < p.hashSize ==>
      0 <= BitIndex(x, y, p.hashSize) < |hash| &&
      hash[BitIndex(x, y, p.hashSize)] == Bit(PictureGrid(resized), x, y)
  {
    var matrix := GetMatrix(resized);
    hash := GetHorizontalDifferences(matrix);
    GridsEqual(Cells(matrix), PictureGrid(resized), p.hashSize);
    FingerprintLength(PictureGrid(resized), p.hashSize);
    forall x, y | 0 <= x < p.hashSize - 1 && 0 <= y < p.hashSize
      ensures 0 <= BitIndex(x, y, p.hashSize) < |hash|
      ensures hash[BitIndex(x, y, p.hashSize)] == Bit(PictureGrid(resized), x, y)
    {
      FingerprintBit(PictureGrid(resized), p.hashSize, x, y);
    }
  }

  /** The fingerprint of an n x n grid: n * (n - 1) bits, each '0' or '1'. */
  lemma FingerprintLength(g: Grid, n: nat)
    requires |g| == n && 0 < n && IsGrid(g, n)
    ensures |Fingerprint(g, n)| == n * (n - 1) && IsBinary(Fingerprint(g, n))
  {
    LengthOfIsProduct(n - 1, n);
    DifferencesBinary(g, n, n - 1);
  }

  /** Where the bit of cell (x, y) of an n x n grid sits in its fingerprint. */
  function BitIndex(x: int, y: int, n: int): int {
    x * n + y
  }

  /** Bit x * n + y of the fingerprint of an n x n grid is the difference bit of cell (x, y). */
  lemma FingerprintBit(g: Grid, n: nat, x: int, y: int)
    requires |g| == n && 0 < n && IsGrid(g, n) && 0 <= x < n - 1 && 0 <= y < n
    ensures 0 <= BitIndex(x, y, n) < |Fingerprint(g, n)|
    ensures Fingerprint(g, n)[BitIndex(x, y, n)] == Bit(g, x, y)
  {
    DifferencesAt(g, n, n - 1, x, y);
  }

  /** With the default processor every fingerprint has 16 * 15 = 240 bits. */
  lemma DefaultFingerprintLength(g: Grid)
    requires |g| == 16 && IsGrid(g, 16)
    ensures |Fingerprint(g, 16)| == 240
  {
    LengthOfIsProduct(15, 16);
  }
}
