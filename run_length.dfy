/**
 * Scalar run-length coding of a gray raster: each row is cut into maximal runs
 * of equal values and every run becomes a (value, count) pair in a flat list.
 */
module RunLengthCoding {
  import opened Results
  import opened Raster

  /**
   * The exceptions `decompressGrayscale` can throw: `IndexOutOfBoundsException`
   * from reading the count after the last value of an odd-length list,
   * `IllegalArgumentException` from the `Color` of a value outside 0..255, and
   * `ArrayIndexOutOfBoundsException` from storing a pixel below the last row.
   */
  datatype RleError = IndexOutOfBounds | IllegalArgument | ArrayIndexOutOfBounds

  /** Length of the maximal run of equal values that ends at value n - 1 of a row. */
  function TrailRun(row: seq<int>, n: nat): (k: nat)
    requires 1 <= n <= |row|
    ensures 1 <= k <= n
  {
    if n == 1 || row[n - 2] != row[n - 1] then 1
    else 1 + TrailRun(row, n - 1)
  }

  /** Reference definition of the run list of the first n values of a row: the runs
      before the last maximal run, then the pair (value, length) of that last run. */
  function RunsBefore(row: seq<int>, n: nat): seq<int>
    requires n <= |row|
    decreases n
  {
    if n == 0 then [] else RunsBefore(row, n - TrailRun(row, n)) + [row[n - 1], TrailRun(row, n)]
  }

  /** The run list of a whole row. */
  function RowRuns(row: seq<int>): seq<int>
  {
    RunsBefore(row, |row|)
  }

  /** The run lists of all rows, concatenated in row order. */
  function ImageRuns(img: seq<seq<int>>): seq<int>
  {
    if img == [] then [] else ImageRuns(img[..|img| - 1]) + RowRuns(img[|img| - 1])
  }

  /** Replays a pair list: each value repeated count times. */
  function Expand(pairs: seq<int>): seq<int>
    decreases |pairs|
  {
    if |pairs| < 2 then [] else Expand(pairs[..|pairs| - 2]) + Repeat(pairs[|pairs| - 2], pairs[|pairs| - 1])
  }

  /** Every value that is actually written (positive count) is a gray level. */
  predicate WrittenValuesGray(pairs: seq<int>)
    decreases |pairs|
  {
    |pairs| < 2 || (WrittenValuesGray(pairs[..|pairs| - 2]) && (pairs[|pairs| - 1] > 0 ==> IsGray(pairs[|pairs| - 2])))
  }

  /** A pair list the decoder replays without an exception into `capacity` pixels. */
  predicate Decodable(pairs: seq<int>, capacity: int)
  {
    |pairs| % 2 == 0 && |Expand(pairs)| <= capacity && WrittenValuesGray(pairs)
  }

  /**
   * Replays an even-length pair list into capacity pixels, pair after pair: a
   * run of positive count fails on a value that is not gray (the colour is
   * built before the pixel is stored), and otherwise on a run that does not fit.
   */
  function ReplayPairs(pairs: seq<int>, capacity: int): Result<seq<int>, RleError>
    requires |pairs| % 2 == 0
    decreases |pairs|
  {
    if pairs == [] then Ok([])
    else
      match ReplayPairs(pairs[..|pairs| - 2], capacity)
      case Err(e) => Err(e)
      case Ok(written) =>
        var v, n := pairs[|pairs| - 2], pairs[|pairs| - 1];
        if n > 0 && !IsGray(v) then Err(RleError.IllegalArgument)
        else if |written| + (if n > 0 then n else 0) > capacity then Err(RleError.ArrayIndexOutOfBounds)
        else Ok(written + Repeat(v, n))
  }

  /**
   * What `decompressGrayscale` gives for a list and capacity pixels: the pairs
   * before a missing count are replayed first, so their exception wins over
   * the one of the missing count; pixels never written stay 0.
   */
  function Decompressed(encoded: seq<int>, capacity: int): Result<seq<int>, RleError>
  {
    var pairs := encoded[..|encoded| - |encoded| % 2];
    match ReplayPairs(pairs, capacity)
    case Err(e) => Err(e)
    case Ok(written) =>
      if |encoded| % 2 == 1 then Err(RleError.IndexOutOfBounds) else Ok(written + Repeat(0, capacity - |written|))
  }

  /** Every count of a pair list is at least 1 (no empty run). */
  predicate CountsPositive(pairs: seq<int>)
    decreases |pairs|
  {
    |pairs| < 2 || (CountsPositive(pairs[..|pairs| - 2]) && pairs[|pairs| - 1] >= 1)
  }

  /** Neighbouring pairs hold different values (every run is maximal). */
  predicate AdjacentValuesDiffer(pairs: seq<int>)
    decreases |pairs|
  {
    |pairs| < 4 || (AdjacentValuesDiffer(pairs[..|pairs| - 2]) && pairs[|pairs| - 4] != pairs[|pairs| - 2])
  }

  /** A run of k equal values ending at n - 1 whose left neighbour differs has exactly the trailing-run length. */
  lemma {:induction false} TrailRunExact(row: seq<int>, n: nat, k: nat)
    requires 1 <= k <= n <= |row|
    requires forall j :: n - k <= j < n ==> row[j] == row[n - 1]
    requires k < n ==> row[n - k - 1] != row[n - 1]
    ensures TrailRun(row, n) == k
  {
    if k > 1 {
      TrailRunExact(row, n - 1, k - 1);
    }
  }

  /** The trailing run really is a run, and the value before it differs. */
  lemma {:induction false} TrailRunUniform(row: seq<int>, n: nat)
    requires 1 <= n <= |row|
    ensures forall j :: n - TrailRun(row, n) <= j < n ==> row[j] == row[n - 1]
    ensures TrailRun(row, n) < n ==> row[n - TrailRun(row, n) - 1] != row[n - 1]
  {
    if n > 1 && row[n - 2] == row[n - 1] {
      TrailRunUniform(row, n - 1);
    }
  }

  /** Appending one pair extends the replay by that run and the per-pair predicates by that pair. */
  lemma {:induction false} AppendPair(pairs: seq<int>, v: int, n: int)
    requires |pairs| % 2 == 0
    ensures Expand(pairs + [v, n]) == Expand(pairs) + Repeat(v, n)
    ensures CountsPositive(pairs + [v, n]) == (CountsPositive(pairs) && n >= 1)
    ensures WrittenValuesGray(pairs + [v, n]) == (WrittenValuesGray(pairs) && (n > 0 ==> IsGray(v)))
    ensures AdjacentValuesDiffer(pairs + [v, n]) == (AdjacentValuesDiffer(pairs) && (|pairs| >= 2 ==> pairs[|pairs| - 2] != v))
  {
    AppendExpand(pairs, v, n);
    AppendCounts(pairs, v, n);
    AppendGray(pairs, v, n);
    assert (pairs + [v, n])[..|pairs|] == pairs;
  }

  lemma AppendExpand(pairs: seq<int>, v: int, n: int)
    ensures Expand(pairs + [v, n]) == Expand(pairs) + Repeat(v, n)
  {
    assert (pairs + [v, n])[..|pairs|] == pairs;
  }

  lemma AppendCounts(pairs: seq<int>, v: int, n: int)
    ensures CountsPositive(pairs + [v, n]) == (CountsPositive(pairs) && n >= 1)
  {
    assert (pairs + [v, n])[..|pairs|] == pairs;
  }

  lemma AppendGray(pairs: seq<int>, v: int, n: int)
    ensures WrittenValuesGray(pairs + [v, n]) == (WrittenValuesGray(pairs) && (n > 0 ==> IsGray(v)))
  {
    assert (pairs + [v, n])[..|pairs|] == pairs;
  }

  lemma PrefixOfPrefix(s: seq<int>, m: nat, n: nat)
    requires n <= m <= |s|
    ensures s[..m][..n] == s[..n]
  {
  }

  lemma ValuesAssoc(s: seq<int>, t: seq<int>, u: seq<int>)
    ensures (s + t) + u == s + (t + u)
  {
  }

  /** Dropping the last pair of a + b drops the last pair of b. */
  lemma ConcatInit(a: seq<int>, b: seq<int>)
    requires |b| >= 2
    ensures (a + b)[..|a + b| - 2] == a + b[..|b| - 2]
    ensures (a + b)[|a + b| - 2] == b[|b| - 2] && (a + b)[|a + b| - 1] == b[|b| - 1]
  {
  }

  /** Replay and the per-pair predicates distribute over concatenation of pair lists. */
  lemma {:induction false} ConcatPairs(a: seq<int>, b: seq<int>)
    requires |a| % 2 == 0 && |b| % 2 == 0
    ensures Expand(a + b) == Expand(a) + Expand(b)
    ensures CountsPositive(a + b) == (CountsPositive(a) && CountsPositive(b))
    ensures WrittenValuesGray(a + b) == (WrittenValuesGray(a) && WrittenValuesGray(b))
  {
    ConcatExpand(a, b);
    ConcatCounts(a, b);
    ConcatGray(a, b);
  }

  lemma {:induction false} ConcatExpand(a: seq<int>, b: seq<int>)
    requires |a| % 2 == 0 && |b| % 2 == 0
    ensures Expand(a + b) == Expand(a) + Expand(b)
    decreases |b|
  {
    if |b| == 0 {
      assert a + b == a;
    } else {
      var b' := b[..|b| - 2];
      var v, n := b[|b| - 2], b[|b| - 1];
      ConcatInit(a, b);
      ConcatExpand(a, b');
      ValuesAssoc(Expand(a), Expand(b'), Repeat(v, n));
    }
  }

  lemma {:induction false} ConcatCounts(a: seq<int>, b: seq<int>)
    requires |a| % 2 == 0 && |b| % 2 == 0
    ensures CountsPositive(a + b) == (CountsPositive(a) && CountsPositive(b))
    decreases |b|
  {
    if |b| == 0 {
      assert a + b == a;
    } else {
      var b' := b[..|b| - 2];
      ConcatInit(a, b);
      ConcatCounts(a, b');
    }
  }

  lemma {:induction false} ConcatGray(a: seq<int>, b: seq<int>)
    requires |a| % 2 == 0 && |b| % 2 == 0
    ensures WrittenValuesGray(a + b) == (WrittenValuesGray(a) && WrittenValuesGray(b))
    decreases |b|
  {
    if |b| == 0 {
      assert a + b == a;
    } else {
      var b' := b[..|b| - 2];
      ConcatInit(a, b);
      ConcatGray(a, b');
    }
  }

  /**
   * The run list of a prefix is an even-length list of (value, count) pairs,
   * at most one pair per value, and its last pair holds the prefix's last value.
   */
  lemma {:induction false} RunsShape(row: seq<int>, n: nat)
    requires n <= |row|
    ensures |RunsBefore(row, n)| % 2 == 0 && |RunsBefore(row, n)| <= 2 * n
    ensures n >= 1 ==> |RunsBefore(row, n)| >= 2 && RunsBefore(row, n)[|RunsBefore(row, n)| - 2] == row[n - 1]
    decreases n
  {
    if n > 0 {
      RunsShape(row, n - TrailRun(row, n));
    }
  }

  /** Every run has a positive length and neighbouring runs hold different values. */
  lemma {:induction false} RunsCounts(row: seq<int>, n: nat)
    requires n <= |row|
    ensures CountsPositive(RunsBefore(row, n))
    ensures AdjacentValuesDiffer(RunsBefore(row, n))
    decreases n
  {
    if n > 0 {
      var k := TrailRun(row, n);
      RunsCounts(row, n - k);
      RunsShape(row, n - k);
      TrailRunUniform(row, n);
      ClosedRunCounts(RunsBefore(row, n - k), row[n - 1], k);
    }
  }

  /** Appending a run of positive length whose value differs from the last run keeps both properties. */
  lemma ClosedRunCounts(prev: seq<int>, v: int, k: int)
    requires CountsPositive(prev) && AdjacentValuesDiffer(prev) && k >= 1
    requires |prev| >= 2 ==> prev[|prev| - 2] != v
    ensures CountsPositive(prev + [v, k]) && AdjacentValuesDiffer(prev + [v, k])
  {
    var pairs := prev + [v, k];
    assert pairs[..|pairs| - 2] == prev;
  }

  /** Replaying the run list of a prefix gives the prefix back. */
  lemma {:induction false} RunsExpand(row: seq<int>, n: nat)
    requires n <= |row|
    ensures Expand(RunsBefore(row, n)) == row[..n]
    decreases n
  {
    if n > 0 {
      var k := TrailRun(row, n);
      var v := row[n - 1];
      TrailRunUniform(row, n);
      RunsExpand(row, n - k);
      RunsShape(row, n - k);
      AppendPair(RunsBefore(row, n - k), v, k);
      RepeatSuffix(row, n, k, v);
    }
  }

  /** A prefix whose last k values are v is its first n - k values followed by k copies of v. */
  lemma RepeatSuffix(row: seq<int>, n: nat, k: nat, v: int)
    requires k <= n <= |row| && forall j :: n - k <= j < n ==> row[j] == v
    ensures row[..n] == row[..n - k] + Repeat(v, k)
  {
    assert Repeat(v, k) == row[n - k..n];
  }

  /** The image list is an even-length pair list with positive counts. */
  lemma {:induction false} ImageRunsShape(img: seq<seq<int>>)
    ensures |ImageRuns(img)| % 2 == 0
    ensures CountsPositive(ImageRuns(img))
  {
    if img != [] {
      var init := img[..|img| - 1];
      ImageRunsShape(init);
      var row := img[|img| - 1];
      RunsShape(row, |row|);
      RunsCounts(row, |row|);
      PairsConcat(ImageRuns(init), RowRuns(row));
    }
  }

  /** Two even-length pair lists with positive counts concatenate to one. */
  lemma PairsConcat(a: seq<int>, b: seq<int>)
    requires |a| % 2 == 0 && |b| % 2 == 0 && CountsPositive(a) && CountsPositive(b)
    ensures |a + b| % 2 == 0 && CountsPositive(a + b)
  {
    ConcatPairs(a, b);
    EvenSum(|a|, |b|);
  }

  /** The image list holds at least one pair per row and at most one pair per pixel. */
  lemma {:induction false} ImageRunsSize(img: seq<seq<int>>)
    requires forall y :: 0 <= y < |img| ==> |img[y]| >= 1
    ensures 2 * |img| <= |ImageRuns(img)| <= 2 * |Flatten(img)|
  {
    if img != [] {
      ImageRunsSize(img[..|img| - 1]);
      RunsShape(img[|img| - 1], |img[|img| - 1]|);
    }
  }

  lemma {:induction false} EvenSum(m: nat, n: nat)
    requires m % 2 == 0 && n % 2 == 0
    ensures (m + n) % 2 == 0
  {
    assert m == 2 * (m / 2) && n == 2 * (n / 2);
    assert m + n == 2 * (m / 2 + n / 2);
  }

  /** Replaying the image list gives the row-major gray stream. */
  lemma {:induction false} ImageRunsExpand(img: seq<seq<int>>)
    ensures Expand(ImageRuns(img)) == Flatten(img)
  {
    if img != [] {
      var init := img[..|img| - 1];
      ImageRunsExpand(init);
      ImageRunsShape(init);
      var row := img[|img| - 1];
      RunsShape(row, |row|);
      RunsExpand(row, |row|);
      assert row[..|row|] == row;
      ConcatPairs(ImageRuns(init), RowRuns(row));
    }
  }

  /** A pair list with positive counts whose replay is all gray writes only gray values. */
  lemma {:induction false} ValuesOfGrayRows(pairs: seq<int>)
    requires |pairs| % 2 == 0 && CountsPositive(pairs)
    requires forall i :: 0 <= i < |Expand(pairs)| ==> IsGray(Expand(pairs)[i])
    ensures WrittenValuesGray(pairs)
    decreases |pairs|
  {
    if |pairs| >= 2 {
      var init := pairs[..|pairs| - 2];
      var v, n := pairs[|pairs| - 2], pairs[|pairs| - 1];
      assert pairs == init + [v, n];
      AppendPair(init, v, n);
      var values := Expand(pairs);
      assert values[|values| - 1] == v;
      assert forall i :: 0 <= i < |Expand(init)| ==> Expand(init)[i] == values[i];
      ValuesOfGrayRows(init);
    }
  }

  /** Decodability is inherited by every even-length prefix, whose replay is a prefix of the whole. */
  lemma {:induction false} DecodablePrefix(pairs: seq<int>, n: int, capacity: int)
    requires Decodable(pairs, capacity) && 0 <= n <= |pairs| && n % 2 == 0
    ensures Decodable(pairs[..n], capacity)
    ensures |Expand(pairs[..n])| <= |Expand(pairs)|
    decreases |pairs|
  {
    if n < |pairs| {
      var init := pairs[..|pairs| - 2];
      PrefixOfPrefix(pairs, |pairs| - 2, n);
      DecodablePrefix(init, n, capacity);
    } else {
      assert pairs[..n] == pairs;
    }
  }

  /**
   * An even-length list replays without an exception exactly when it is
   * decodable, and then into its expansion.
   */
  lemma {:induction false} ReplayPairsDecodable(pairs: seq<int>, capacity: int)
    requires |pairs| % 2 == 0 && capacity >= 0
    ensures ReplayPairs(pairs, capacity).Ok? <==> Decodable(pairs, capacity)
    ensures ReplayPairs(pairs, capacity).Ok? ==> ReplayPairs(pairs, capacity).value == Expand(pairs)
    decreases |pairs|
  {
    if pairs != [] {
      var init, v, n := pairs[..|pairs| - 2], pairs[|pairs| - 2], pairs[|pairs| - 1];
      ReplayPairsDecodable(init, capacity);
      assert pairs == init + [v, n];
      NextPairReplay(pairs, init, v, n, capacity);
    }
  }

  /** Once an even prefix of the pairs fails, replaying the whole list fails the same way. */
  lemma {:induction false} ReplayPairsFailed(pairs: seq<int>, n: nat, capacity: int)
    requires |pairs| % 2 == 0 && n % 2 == 0 && n <= |pairs|
    requires ReplayPairs(pairs[..n], capacity).Err?
    ensures ReplayPairs(pairs, capacity) == ReplayPairs(pairs[..n], capacity)
    decreases |pairs|
  {
    if n < |pairs| {
      var init := pairs[..|pairs| - 2];
      PrefixOfPrefix(pairs, |pairs| - 2, n);
      ReplayPairsFailed(init, n, capacity);
    } else {
      assert pairs[..n] == pairs;
    }
  }

  /**
   * Decompression succeeds exactly on decodable lists, and then gives the
   * replay of the pairs followed by zeros up to capacity.
   */
  lemma {:induction false} DecompressedDecodable(encoded: seq<int>, capacity: int)
    requires capacity >= 0
    ensures Decompressed(encoded, capacity).Ok? <==> Decodable(encoded, capacity)
    ensures Decompressed(encoded, capacity).Ok? ==>
      Decompressed(encoded, capacity).value == Expand(encoded) + Repeat(0, capacity - |Expand(encoded)|)
  {
    var pairs := encoded[..|encoded| - |encoded| % 2];
    ReplayPairsDecodable(pairs, capacity);
    if |encoded| % 2 == 0 {
      assert pairs == encoded;
    }
  }

  /**
   * A list whose last value has no count fails on that read, unless an
   * earlier pair already failed.
   */
  lemma {:induction false} MissingCount(encoded: seq<int>, capacity: int)
    requires |encoded| % 2 == 1 && capacity >= 0
    requires Decodable(encoded[..|encoded| - 1], capacity)
    ensures Decompressed(encoded, capacity) == Err(RleError.IndexOutOfBounds)
  {
    ReplayPairsDecodable(encoded[..|encoded| - 1], capacity);
  }

  /** A pair that fails after decodable pairs makes decompression fail with its exception. */
  lemma {:induction false} PairFails(encoded: seq<int>, n: nat, capacity: int)
    requires n % 2 == 0 && n <= |encoded| && ReplayPairs(encoded[..n], capacity).Err?
    ensures Decompressed(encoded, capacity) == ReplayPairs(encoded[..n], capacity)
  {
    var pairs := encoded[..|encoded| - |encoded| % 2];
    PrefixOfPrefix(encoded, |pairs|, n);
    ReplayPairsFailed(pairs, n, capacity);
  }

  /**
   * The replay of the pair at i after decodable pairs: a value that is not
   * gray fails first, then a run that does not fit.
   */
  lemma {:induction false} ReplayNextPair(encoded: seq<int>, i: nat, capacity: int)
    requires i % 2 == 0 && i + 1 < |encoded| && capacity >= 0 && Decodable(encoded[..i], capacity)
    ensures ReplayPairs(encoded[..i + 2], capacity) ==
      if encoded[i + 1] > 0 && !IsGray(encoded[i]) then Err(RleError.IllegalArgument)
      else if |Expand(encoded[..i])| + (if encoded[i + 1] > 0 then encoded[i + 1] else 0) > capacity then Err(RleError.ArrayIndexOutOfBounds)
      else Ok(Expand(encoded[..i]) + Repeat(encoded[i], encoded[i + 1]))
  {
    ReplayPairsDecodable(encoded[..i], capacity);
    PrefixOfPrefix(encoded, i + 2, i);
  }

  /**
   * The inner loop of `compressGrayscale` over one row: start a run at the first
   * pixel, extend it while the value repeats, close it (append value and count)
   * when the value changes, and close the last run at the end of the row.
   */
  method CompressRow(row: seq<int>) returns (pairs: seq<int>)
    requires |row| >= 1
    ensures pairs == RowRuns(row)
  {
    pairs := [];
    var count := 1;
    var currentPixel := row[0];
    var x := 1;
    while x < |row|
      invariant 1 <= x <= |row|
      invariant 1 <= count <= x
      invariant currentPixel == row[x - 1]
      invariant forall k :: x - count <= k < x ==> row[k] == currentPixel
      invariant x - count > 0 ==> row[x - count - 1] != currentPixel
      invariant pairs == RunsBefore(row, x - count)
    {
      var pixel := row[x];
      if pixel == currentPixel {
        count := count + 1;
      } else {
        CloseRunAt(row, x, count);
        pairs := pairs + [currentPixel, count];
        currentPixel := pixel;
        count := 1;
      }
      x := x + 1;
    }
    CloseRunAt(row, |row|, count);
    pairs := pairs + [currentPixel, count];
  }

  /** A change of value at x (or the end of the row) closes the run of length count that ends at x - 1. */
  lemma CloseRunAt(row: seq<int>, x: nat, count: nat)
    requires 1 <= count <= x <= |row|
    requires forall k :: x - count <= k < x ==> row[k] == row[x - 1]
    requires x - count > 0 ==> row[x - count - 1] != row[x - 1]
    ensures RunsBefore(row, x) == RunsBefore(row, x - count) + [row[x - 1], count]
  {
    TrailRunExact(row, x, count);
  }

  /** The row 10, 10, 10, 20, 20 becomes the pairs (10, 3) and (20, 2). */
  lemma {:induction false} RowExample(row: seq<int>)
    requires row == [10, 10, 10, 20, 20]
    ensures RowRuns(row) == [10, 3, 20, 2]
  {
    CloseRunAt(row, 5, 2);
    CloseRunAt(row, 3, 3);
  }

  /**
   * `compressGrayscale`: the rows' run lists concatenated in row order. The
   * result is an even-length list of pairs with positive counts that replays
   * to the image, with between one pair per row and one pair per pixel (the
   * compression ratio is width*height over the list length).
   */
  method CompressGrayscale(img: seq<seq<int>>, width: int, height: int) returns (encoded: seq<int>)
    requires IsImage(img, width, height)
    ensures encoded == ImageRuns(img)
    ensures |encoded| % 2 == 0 && CountsPositive(encoded)
    ensures Expand(encoded) == Flatten(img)
    ensures 2 * height <= |encoded| <= 2 * |Flatten(img)|
  {
    encoded := [];
    var y := 0;
    while y < height
      invariant 0 <= y <= height
      invariant encoded == ImageRuns(img[..y])
    {
      var pairs := CompressRow(img[y]);
      encoded := encoded + pairs;
      assert img[..y + 1][..y] == img[..y];
      y := y + 1;
    }
    assert img[..height] == img;
    ImageRunsShape(img);
    ImageRunsSize(img);
    ImageRunsExpand(img);
  }

  /**
   * `decompressGrayscale`: replays the pairs into a fresh black image with an
   * (x, y) cursor that wraps to the next row at `width`. The read of a missing
   * count, a value outside 0..255 (the `Color` constructor) or a write below
   * the last row throws; pixels never written stay 0.
   */
  method DecompressGrayscale(encoded: seq<int>, width: int, height: int) returns (r: Result<seq<int>, RleError>)
    requires width >= 1 && height >= 1
    ensures r == Decompressed(encoded, width * height)
    ensures r.Ok? <==> Decodable(encoded, width * height)
    ensures r.Ok? ==> r.value == Expand(encoded) + Repeat(0, width * height - |Expand(encoded)|)
  {
    var image := new int[width * height](_ => 0);
    assert image[..] == Repeat(0, image.Length);
    var status := ReplayPairList(image, encoded, width, height);
    DecompressedDecodable(encoded, image.Length);
    if status.Err? {
      return Err(status.error);
    }
    r := Ok(image[..]);
  }

  /**
   * The pair loop of `decompressGrayscale` on a black image: it stops at the
   * first exception, the one `Decompressed` names, or leaves the image
   * holding the replay of a decodable list followed by zeros.
   */
  method ReplayPairList(image: array<int>, encoded: seq<int>, width: int, height: int) returns (status: Result<(), RleError>)
    requires width >= 1 && height >= 1 && image.Length == width * height
    requires image[..] == Repeat(0, image.Length)
    modifies image
    ensures status.Err? ==> Decompressed(encoded, image.Length) == Err(status.error)
    ensures status.Ok? ==> Decodable(encoded, image.Length)
    ensures status.Ok? ==> image[..] == Expand(encoded) + Repeat(0, image.Length - |Expand(encoded)|)
  {
    var x, y := 0, 0;
    var i := 0;
    ReplayStart(image[..], encoded, width);
    while i < |encoded|
      invariant i <= |encoded|
      invariant Replayed(image[..], encoded, i, x, y, width)
    {
      if i + 1 >= |encoded| {
        MissingCount(encoded, image.Length);
        return Err(RleError.IndexOutOfBounds);
      }
      status, x, y := ReplayPair(image, encoded, i, x, y, width, height);
      if status.Err? {
        return;
      }
      i := i + 2;
    }
    ReplayEnd(image[..], encoded, i, x, y, width);
    status := Ok(());
  }

  /**
   * The decoder after the pairs before i: the image holds their replay and
   * then zeros, and the cursor (x, y) is at the end of the replay.
   */
  ghost predicate Replayed(image: seq<int>, encoded: seq<int>, i: int, x: int, y: int, width: int)
  {
    && 0 <= i <= |encoded| && i % 2 == 0
    && 0 <= x < width && 0 <= y
    && y * width + x == |Expand(encoded[..i])|
    && Decodable(encoded[..i], |image|)
    && image == Expand(encoded[..i]) + Repeat(0, |image| - |Expand(encoded[..i])|)
  }

  /** Before any pair the image is all zeros and the cursor is at (0, 0). */
  lemma ReplayStart(image: seq<int>, encoded: seq<int>, width: int)
    requires width >= 1 && image == Repeat(0, |image|)
    ensures Replayed(image, encoded, 0, 0, 0, width)
  {
    assert encoded[..0] == [];
  }

  /** After the last pair the list was decodable and the image holds its replay, then zeros. */
  lemma ReplayEnd(image: seq<int>, encoded: seq<int>, i: int, x: int, y: int, width: int)
    requires Replayed(image, encoded, i, x, y, width) && i >= |encoded|
    ensures Decodable(encoded, |image|)
    ensures image == Expand(encoded) + Repeat(0, |image| - |Expand(encoded)|)
  {
    assert encoded[..i] == encoded;
  }

  /**
   * One pass of the decoder's loop: reads the pair at i and writes its run. It
   * fails exactly when the list up to and including the pair is not
   * decodable, with the exception that replaying that list gives.
   */
  method ReplayPair(image: array<int>, encoded: seq<int>, i: int, x0: int, y0: int, width: int, height: int)
    returns (status: Result<(), RleError>, x: int, y: int)
    modifies image
    requires width >= 1 && height >= 1 && image.Length == width * height
    requires i + 1 < |encoded| && Replayed(image[..], encoded, i, x0, y0, width)
    ensures status.Ok? <==> Decodable(encoded[..i + 2], image.Length)
    ensures status.Err? ==> !Decodable(encoded, image.Length)
    ensures status.Err? ==> Decompressed(encoded, image.Length) == Err(status.error)
    ensures status.Ok? ==> Replayed(image[..], encoded, i + 2, x, y, width)
  {
    NextPair(encoded, i, image.Length);
    ReplayNextPair(encoded, i, image.Length);
    var before := Expand(encoded[..i]);
    var value, count := encoded[i], encoded[i + 1];
    status, x, y := WriteRun(image, value, count, x0, y0, width, height, before);
    if status.Ok? {
      RunThenZeros(before, value, count, image.Length);
    } else {
      PairFails(encoded, i + 2, image.Length);
    }
  }

  /** The written values followed by the zeros still to be written. */
  lemma RunThenZeros(before: seq<int>, value: int, count: int, length: int)
    ensures before + Repeat(value, count) + Repeat(0, length - |before| - (if count > 0 then count else 0))
      == (before + Repeat(value, count)) + Repeat(0, length - |before + Repeat(value, count)|)
  {
  }

  /**
   * Writes count copies of value at the cursor (x, y) of a row-major image,
   * moving to the next row at the end of each one. It fails, as the pixel
   * store does, when a value is not gray (the colour is built before the
   * store) or else when the cursor runs past the last row.
   */
  method WriteRun(image: array<int>, value: int, count: int, x0: int, y0: int, width: int, height: int, ghost before: seq<int>)
    returns (status: Result<(), RleError>, x: int, y: int)
    modifies image
    requires width >= 1 && height >= 1 && image.Length == width * height
    requires 0 <= x0 < width && 0 <= y0 && y0 * width + x0 == |before| <= image.Length
    requires image[..] == before + Repeat(0, image.Length - |before|)
    ensures status.Ok? <==> count <= 0 || (IsGray(value) && |before| + count <= image.Length)
    ensures status.Err? ==> status.error == if IsGray(value) then RleError.ArrayIndexOutOfBounds else RleError.IllegalArgument
    ensures status.Ok? ==> 0 <= x < width && 0 <= y
    ensures status.Ok? ==> y * width + x == |before| + (if count > 0 then count else 0)
    ensures status.Ok? ==> image[..] == before + Repeat(value, count) + Repeat(0, image.Length - |before| - (if count > 0 then count else 0))
  {
    x, y := x0, y0;
    var j := 0;
    while j < count
      invariant 0 <= j <= (if count > 0 then count else 0)
      invariant j > 0 ==> IsGray(value)
      invariant 0 <= x < width && 0 <= y
      invariant y * width + x == |before| + j <= image.Length
      invariant image[..] == before + Repeat(value, j) + Repeat(0, image.Length - |before| - j)
    {
      if !IsGray(value) {
        return Err(RleError.IllegalArgument), x, y;
      }
      if y >= height {
        BeyondImage(x, y, width, height);
        return Err(RleError.ArrayIndexOutOfBounds), x, y;
      }
      PositionInImage(x, y, width, height);
      WriteNext(before, value, j, image.Length - |before| - j);
      image[y * width + x] := value;
      x := x + 1;
      if x >= width {
        NextRow(y, width);
        x := 0;
        y := y + 1;
      }
      j := j + 1;
    }
    return Ok(()), x, y;
  }

  /** Writing the next pixel of a run turns one trailing zero into the run's value. */
  lemma {:induction false} WriteNext(before: seq<int>, v: int, j: nat, rest: int)
    requires rest >= 1
    ensures (before + Repeat(v, j) + Repeat(0, rest))[|before| + j := v] == before + Repeat(v, j + 1) + Repeat(0, rest - 1)
  {
    var a := (before + Repeat(v, j) + Repeat(0, rest))[|before| + j := v];
    var b := before + Repeat(v, j + 1) + Repeat(0, rest - 1);
    assert |a| == |b|;
    forall k | 0 <= k < |a|
      ensures a[k] == b[k]
    {
      if k < |before| {
      } else if k <= |before| + j {
      } else {
      }
    }
  }

  /**
   * Replaying one more pair of a list: the replay grows by that run, and the
   * longer prefix is decodable exactly when the shorter one is and the pair
   * writes gray values that still fit. A decodable list has decodable prefixes.
   */
  lemma {:induction false} NextPair(encoded: seq<int>, i: int, capacity: int)
    requires 0 <= i && i % 2 == 0 && i + 1 < |encoded|
    ensures Expand(encoded[..i + 2]) == Expand(encoded[..i]) + Repeat(encoded[i], encoded[i + 1])
    ensures Decodable(encoded[..i + 2], capacity) <==>
      Decodable(encoded[..i], capacity) && (encoded[i + 1] > 0 ==> IsGray(encoded[i])) &&
      |Expand(encoded[..i])| + (if encoded[i + 1] > 0 then encoded[i + 1] else 0) <= capacity
    ensures Decodable(encoded, capacity) ==> Decodable(encoded[..i + 2], capacity)
  {
    var longer, pairs := encoded[..i + 2], encoded[..i];
    assert longer == pairs + [encoded[i], encoded[i + 1]];
    NextPairReplay(longer, pairs, encoded[i], encoded[i + 1], capacity);
    if Decodable(encoded, capacity) {
      DecodablePrefix(encoded, i + 2, capacity);
    }
  }

  /** NextPair for the prefix longer by the pair (v, n). */
  lemma NextPairReplay(longer: seq<int>, pairs: seq<int>, v: int, n: int, capacity: int)
    requires longer == pairs + [v, n] && |pairs| % 2 == 0
    ensures Expand(longer) == Expand(pairs) + Repeat(v, n)
    ensures Decodable(longer, capacity) <==>
      Decodable(pairs, capacity) && (n > 0 ==> IsGray(v)) && |Expand(pairs)| + (if n > 0 then n else 0) <= capacity
  {
    AppendExpand(pairs, v, n);
    AppendGray(pairs, v, n);
  }

  /** A cursor on a row at or past the last one points at or beyond the image's last pixel. */
  lemma {:induction false} BeyondImage(x: int, y: int, width: int, height: int)
    requires 0 <= x < width && height <= y && 1 <= height
    ensures width * height <= y * width + x
  {
    assert height * width <= y * width;
  }

  /**
   * Decompressing the compressed list gives back every pixel of the image in
   * row-major order.
   */
  lemma {:induction false} ScalarRoundTrip(img: seq<seq<int>>, width: int, height: int)
    requires IsImage(img, width, height)
    ensures Decodable(ImageRuns(img), width * height)
    ensures Expand(ImageRuns(img)) + Repeat(0, width * height - |Expand(ImageRuns(img))|) == Flatten(img)
  {
    ImageRunsShape(img);
    ImageRunsExpand(img);
    FlattenLength(img, width, height);
    FlattenGray(img, width, height);
    ValuesOfGrayRows(ImageRuns(img));
  }
}
