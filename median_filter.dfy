/**
 * `Filters.medianFilter(inputImage, maskSize)`: each output pixel is the
 * entry at position size / 2 of the sorted list of the in-image pixels at
 * offsets -(maskSize / 2) .. maskSize / 2 in both directions.
 */
module MedianFilter {
  import opened Results
  import opened Raster
  import opened JavaInt
  import opened Windows
  import opened Histograms

  predicate Sorted(s: seq<int>)
  {
    forall i, j :: 0 <= i <= j < |s| ==> s[i] <= s[j]
  }

  /** Inserts v into s before the trailing entries that are greater than v. */
  function Insert(v: int, s: seq<int>): (r: seq<int>)
    ensures |r| == |s| + 1
    decreases |s|
  {
    if s == [] then [v]
    else
      var init, last := s[..|s| - 1], s[|s| - 1];
      if last <= v then s + [v] else Insert(v, init) + [last]
  }

  /** Ascending order, as `Collections.sort` leaves an `ArrayList<Integer>`: insertion sort. */
  function Sort(s: seq<int>): (r: seq<int>)
    ensures |r| == |s|
    decreases |s|
  {
    if s == [] then [] else Insert(s[|s| - 1], Sort(s[..|s| - 1]))
  }

  /** Inserting into a sorted list keeps it sorted, and adds only v. */
  lemma {:induction false} InsertSorted(v: int, s: seq<int>)
    requires Sorted(s)
    ensures Sorted(Insert(v, s))
    ensures forall i :: 0 <= i < |s| + 1 ==> Insert(v, s)[i] == v || Insert(v, s)[i] in s
    decreases |s|
  {
    if s != [] {
      var init, last := s[..|s| - 1], s[|s| - 1];
      assert s == init + [last];
      if last <= v {
        AppendSorted(s, v);
      } else {
        InsertSorted(v, init);
        var ins := Insert(v, init);
        assert Insert(v, s) == ins + [last];
        AppendAbove(ins, init, last, v);
      }
    }
  }

  /** A sorted list of v and entries of init, all below the last entry of init + [last], stays sorted with last appended. */
  lemma AppendAbove(ins: seq<int>, init: seq<int>, last: int, v: int)
    requires Sorted(init + [last]) && v < last && Sorted(ins)
    requires forall i :: 0 <= i < |ins| ==> ins[i] == v || ins[i] in init
    ensures Sorted(ins + [last])
    ensures forall i :: 0 <= i < |ins| + 1 ==> (ins + [last])[i] == v || (ins + [last])[i] in init + [last]
  {
    var s := init + [last];
    forall i | 0 <= i < |ins|
      ensures ins[i] <= last && (ins[i] == v || ins[i] in s)
    {
      if ins[i] != v {
        var j :| 0 <= j < |init| && init[j] == ins[i];
        assert s[j] == ins[i] && s[|init|] == last;
      }
    }
    AppendSorted(ins, last);
  }

  lemma AppendSorted(s: seq<int>, v: int)
    requires Sorted(s) && forall i :: 0 <= i < |s| ==> s[i] <= v
    ensures Sorted(s + [v])
  {
  }

  /** Sorting leaves the list in ascending order. */
  lemma {:induction false} SortSorted(s: seq<int>)
    ensures Sorted(Sort(s))
    decreases |s|
  {
    if s != [] {
      SortSorted(s[..|s| - 1]);
      InsertSorted(s[|s| - 1], Sort(s[..|s| - 1]));
    }
  }

  /** Inserting adds v to the entries. */
  lemma {:induction false} InsertPermutes(v: int, s: seq<int>)
    ensures multiset(Insert(v, s)) == multiset(s) + multiset{v}
    decreases |s|
  {
    if s != [] {
      var init, last := s[..|s| - 1], s[|s| - 1];
      assert s == init + [last];
      if last > v {
        InsertPermutes(v, init);
      }
    }
  }

  /** Sorting is a permutation. */
  lemma {:induction false} SortPermutes(s: seq<int>)
    ensures multiset(Sort(s)) == multiset(s)
    decreases |s|
  {
    if s != [] {
      SortPermutes(s[..|s| - 1]);
      InsertPermutes(s[|s| - 1], Sort(s[..|s| - 1]));
      assert s == s[..|s| - 1] + [s[|s| - 1]];
    }
  }

  /** `Collections.sort(list)` then `list.get(list.size() / 2)`, which throws on an empty list. */
  function MedianOf(list: seq<int>): Result<int, FilterError>
  {
    var sorted := Sort(list);
    if |sorted| == 0 then Err(IndexOutOfBounds) else Ok(sorted[|sorted| / 2])
  }

  /** The window of offsets -(maskSize / 2) .. maskSize / 2 around (x, y). */
  function MedianWindow(img: seq<seq<int>>, width: int, height: int, x: int, y: int, maskSize: int): seq<int>
    requires IsImage(img, width, height)
  {
    Window(img, width, height, x, y, -Quot(maskSize, 2), Quot(maskSize, 2))
  }

  /** One output pixel: the median of its window. */
  function MedianValue(img: seq<seq<int>>, width: int, height: int, x: int, y: int, maskSize: int): Result<int, FilterError>
    requires IsImage(img, width, height)
  {
    MedianOf(MedianWindow(img, width, height, x, y, maskSize))
  }

  /** Inserting v adds one to the count below n exactly when v < n. */
  lemma {:induction false} InsertBelow(v: int, s: seq<int>, n: int)
    ensures CountBelow(Insert(v, s), n) == CountBelow(s, n) + (if v < n then 1 else 0)
    decreases |s|
  {
    if s != [] {
      var init, last := s[..|s| - 1], s[|s| - 1];
      if last <= v {
        assert (s + [v])[..|s|] == s;
      } else {
        InsertBelow(v, init, n);
        var r := Insert(v, init) + [last];
        assert r[..|r| - 1] == Insert(v, init);
        assert s[..|s| - 1] == init;
      }
    }
  }

  /** Sorting keeps the number of pixels below every level. */
  lemma {:induction false} SortBelow(s: seq<int>, n: int)
    ensures CountBelow(Sort(s), n) == CountBelow(s, n)
    decreases |s|
  {
    if s != [] {
      SortBelow(s[..|s| - 1], n);
      InsertBelow(s[|s| - 1], Sort(s[..|s| - 1]), n);
    }
  }

  /** When every entry from index k on is at least v, at most k entries lie below v. */
  lemma {:induction false} BelowAtMost(s: seq<int>, v: int, k: nat)
    requires forall i :: k <= i < |s| ==> v <= s[i]
    ensures CountBelow(s, v) <= k && CountBelow(s, v) <= |s|
    decreases |s|
  {
    if s != [] {
      BelowAtMost(s[..|s| - 1], v, k);
    }
  }

  /** When the first k entries lie below v, at least k entries do. */
  lemma {:induction false} BelowAtLeast(s: seq<int>, v: int, k: nat)
    requires k <= |s| && forall i :: 0 <= i < k ==> s[i] < v
    ensures k <= CountBelow(s, v)
    decreases |s|
  {
    if |s| > k {
      BelowAtLeast(s[..|s| - 1], v, k);
    } else if k > 0 {
      BelowAtLeast(s[..|s| - 1], v, k - 1);
    }
  }

  /**
   * The entry at index k of a sorted copy of s has at most k entries of s
   * below it and more than k at or below it.
   */
  lemma SortedRank(s: seq<int>, k: nat, v: int)
    requires k < |s| && v == Sort(s)[k]
    ensures CountBelow(s, v) <= k < CountBelow(s, v + 1)
  {
    var sorted := Sort(s);
    SortSorted(s);
    BelowAtMost(sorted, v, k);
    BelowAtLeast(sorted, v + 1, k + 1);
    SortBelow(s, v);
    SortBelow(s, v + 1);
  }

  /** Only one level has that rank. */
  lemma RankUnique(s: seq<int>, k: nat, u: int, v: int)
    requires CountBelow(s, u) <= k < CountBelow(s, u + 1)
    requires CountBelow(s, v) <= k < CountBelow(s, v + 1)
    ensures u == v
  {
    if u < v {
      CountBelowMonotone(s, u + 1, v);
    }
    if v < u {
      CountBelowMonotone(s, v + 1, u);
    }
  }

  /**
   * The median is defined exactly when maskSize / 2 >= 0, that is
   * maskSize >= -1: the window then holds the pixel itself, and for
   * maskSize <= -2 the offset range is empty and `get(0)` throws.
   */
  lemma MedianDefined(img: seq<seq<int>>, width: int, height: int, x: int, y: int, maskSize: int)
    requires IsImage(img, width, height) && InImage(x, y, width, height)
    ensures MedianValue(img, width, height, x, y, maskSize).Err? <==> maskSize <= -2
    ensures MedianValue(img, width, height, x, y, maskSize).Err? ==> MedianValue(img, width, height, x, y, maskSize).error == IndexOutOfBounds
  {
    var subMask := Quot(maskSize, 2);
    var lo := -subMask;
    var win := MedianWindow(img, width, height, x, y, maskSize);
    assert win == Window(img, width, height, x, y, lo, subMask);
    WindowCentre(img, width, height, x, y, lo, subMask);
    MedianOfEmpty(win);
    if maskSize <= -2 {
      assert subMask < lo;
      assert win == [];
    } else {
      assert lo <= 0 <= subMask;
      assert img[y][x] in win;
    }
  }

  /** Only the empty list has no median, and `get` then throws `IndexOutOfBoundsException`. */
  lemma MedianOfEmpty(list: seq<int>)
    ensures MedianOf(list).Err? <==> list == []
    ensures MedianOf(list).Err? ==> MedianOf(list).error == IndexOutOfBounds
  {
  }

  /**
   * When defined, the median of a list is one of its entries and the unique
   * level m with at most |list| / 2 entries below m and more than |list| / 2
   * at or below m.
   */
  lemma MedianOfRank(list: seq<int>, v: int, m: int)
    requires MedianOf(list) == Ok(v)
    ensures v in list
    ensures CountBelow(list, v) <= |list| / 2 < CountBelow(list, v + 1)
    ensures CountBelow(list, m) <= |list| / 2 < CountBelow(list, m + 1) ==> m == v
  {
    var k := |list| / 2;
    assert v == Sort(list)[k];
    assert v in list by {
      SortPermutes(list);
      assert v in multiset(Sort(list));
    }
    SortedRank(list, k, v);
    if CountBelow(list, m) <= k < CountBelow(list, m + 1) {
      RankUnique(list, k, m, v);
    }
  }

  /** When defined, an output pixel is a gray level of its window with the median's rank there. */
  lemma MedianRank(img: seq<seq<int>>, width: int, height: int, x: int, y: int, maskSize: int, v: int, m: int)
    requires IsImage(img, width, height) && MedianValue(img, width, height, x, y, maskSize) == Ok(v)
    ensures IsGray(v) && v in MedianWindow(img, width, height, x, y, maskSize)
    ensures var win := MedianWindow(img, width, height, x, y, maskSize);
      && CountBelow(win, v) <= |win| / 2 < CountBelow(win, v + 1)
      && (CountBelow(win, m) <= |win| / 2 < CountBelow(win, m + 1) ==> m == v)
  {
    var win := MedianWindow(img, width, height, x, y, maskSize);
    assert MedianOf(win) == Ok(v);
    MedianOfRank(win, v, m);
    InMedianWindow(img, width, height, x, y, maskSize, v);
  }

  /** Every value of a median window is a gray level. */
  lemma InMedianWindow(img: seq<seq<int>>, width: int, height: int, x: int, y: int, maskSize: int, v: int)
    requires IsImage(img, width, height) && v in MedianWindow(img, width, height, x, y, maskSize)
    ensures IsGray(v)
  {
    var win := MedianWindow(img, width, height, x, y, maskSize);
    var subMask := Quot(maskSize, 2);
    var lo := -subMask;
    assert win == Window(img, width, height, x, y, lo, subMask);
    WindowGray(img, width, height, x, y, lo, subMask);
    InGrayStream(win, v);
  }

  /** A window of one level v gives v. */
  lemma MedianUniform(img: seq<seq<int>>, width: int, height: int, x: int, y: int, maskSize: int, v: int)
    requires IsImage(img, width, height) && MedianValue(img, width, height, x, y, maskSize).Ok?
    requires forall u :: u in MedianWindow(img, width, height, x, y, maskSize) ==> u == v
    ensures MedianValue(img, width, height, x, y, maskSize) == Ok(v)
  {
    var r := MedianValue(img, width, height, x, y, maskSize).value;
    MedianRank(img, width, height, x, y, maskSize, r, v);
  }

  /** Away from the borders the window has (2 * (maskSize / 2) + 1)^2 pixels. */
  lemma MedianWindowSize(img: seq<seq<int>>, width: int, height: int, x: int, y: int, maskSize: int)
    requires IsImage(img, width, height) && maskSize >= 0
    requires 0 <= x - maskSize / 2 && x + maskSize / 2 < width && 0 <= y - maskSize / 2 && y + maskSize / 2 < height
    ensures |MedianWindow(img, width, height, x, y, maskSize)| == (2 * (maskSize / 2) + 1) * (2 * (maskSize / 2) + 1)
  {
    var subMask := Quot(maskSize, 2);
    var lo, end := -subMask, subMask + 1;
    assert |MedianWindow(img, width, height, x, y, maskSize)| == |WindowRows(img, width, height, x, y, lo, end, subMask)|;
    WindowRowsSize(img, width, height, x, y, lo, end, subMask);
    var n := 2 * (maskSize / 2) + 1;
    assert end - lo == n && subMask + 1 - lo == n;
  }

  /** The inner `for j` loop: appends the in-image pixels of row offset i. */
  method CollectRow(img: seq<seq<int>>, width: int, height: int, x: int, y: int, i: int, subMask: int, list0: seq<int>)
    returns (list: seq<int>)
    requires IsImage(img, width, height)
    ensures list == list0 + RowWindow(img, width, height, x, y, i, -subMask, subMask + 1)
  {
    list := list0;
    var j := -subMask;
    while j <= subMask
      invariant j == -subMask || j <= subMask + 1
      invariant list == list0 + RowWindow(img, width, height, x, y, i, -subMask, j)
      decreases subMask - j
    {
      if InImage(x + j, y + i, width, height) {
        var pixelValue := img[y + i][x + j];
        list := list + [pixelValue];
      }
      j := j + 1;
    }
  }

  /** The two window loops, the sort and the middle entry for the pixel at (x, y). */
  method MedianPixel(img: seq<seq<int>>, width: int, height: int, x: int, y: int, maskSize: int) returns (r: Result<int, FilterError>)
    requires IsImage(img, width, height)
    ensures r == MedianValue(img, width, height, x, y, maskSize)
  {
    var subMask := Quot(maskSize, 2);
    var listOfSubMaskPixels: seq<int> := [];
    var i := -subMask;
    while i <= subMask
      invariant i == -subMask || i <= subMask + 1
      invariant listOfSubMaskPixels == WindowRows(img, width, height, x, y, -subMask, i, subMask)
      decreases subMask - i
    {
      listOfSubMaskPixels := CollectRow(img, width, height, x, y, i, subMask, listOfSubMaskPixels);
      i := i + 1;
    }
    assert listOfSubMaskPixels == MedianWindow(img, width, height, x, y, maskSize);
    var sorted := Sort(listOfSubMaskPixels);
    if |sorted| == 0 {
      return Err(IndexOutOfBounds);
    }
    r := Ok(sorted[|sorted| / 2]);
  }

  /**
   * The inner `for x` loop for row y: fills the row with `MedianValue` and
   * touches no other row; it fails, on the first pixel, exactly when
   * maskSize is -2 or less.
   */
  method MedianRow(img: seq<seq<int>>, width: int, height: int, y: int, maskSize: int, outputImg: array2<int>) returns (ok: bool)
    requires IsImage(img, width, height) && 0 <= y < height
    requires outputImg.Length0 == height && outputImg.Length1 == width
    modifies outputImg
    ensures ok <==> maskSize >= -1
    ensures ok ==> forall xx :: 0 <= xx < width ==> MedianValue(img, width, height, xx, y, maskSize) == Ok(outputImg[y, xx])
    ensures forall yy, xx :: 0 <= yy < height && yy != y && 0 <= xx < width ==> outputImg[yy, xx] == old(outputImg[yy, xx])
  {
    for x := 0 to width
      invariant x > 0 ==> maskSize >= -1
      invariant forall xx :: 0 <= xx < x ==> MedianValue(img, width, height, xx, y, maskSize) == Ok(outputImg[y, xx])
      invariant forall yy, xx :: 0 <= yy < height && yy != y && 0 <= xx < width ==> outputImg[yy, xx] == old(outputImg[yy, xx])
    {
      ok := MedianAt(img, width, height, x, y, maskSize, outputImg);
      if !ok {
        return;
      }
    }
    return true;
  }

  /** One pass of the `for x` loop: stores the median of pixel (x, y), or fails when `get` throws. */
  method MedianAt(img: seq<seq<int>>, width: int, height: int, x: int, y: int, maskSize: int, outputImg: array2<int>) returns (ok: bool)
    requires IsImage(img, width, height) && InImage(x, y, width, height)
    requires outputImg.Length0 == height && outputImg.Length1 == width
    modifies outputImg
    ensures ok <==> maskSize >= -1
    ensures ok ==> MedianValue(img, width, height, x, y, maskSize) == Ok(outputImg[y, x])
    ensures forall yy, xx :: 0 <= yy < height && 0 <= xx < width && (yy != y || xx != x) ==> outputImg[yy, xx] == old(outputImg[yy, xx])
  {
    var newPixelValue := MedianPixel(img, width, height, x, y, maskSize);
    MedianDefined(img, width, height, x, y, maskSize);
    if newPixelValue.Err? {
      return false;
    }
    outputImg[y, x] := newPixelValue.value;
    return true;
  }

  /**
   * `medianFilter(inputImage, maskSize)`: every pixel is mapped by
   * `MedianValue`; a maskSize of -2 or less makes the first `get` throw.
   */
  method Median(img: seq<seq<int>>, width: int, height: int, maskSize: int) returns (r: Result<array2<int>, FilterError>)
    requires IsImage(img, width, height)
    ensures r.Err? <==> maskSize <= -2
    ensures r.Err? ==> r.error == IndexOutOfBounds
    ensures r.Ok? ==> fresh(r.value) && r.value.Length0 == height && r.value.Length1 == width
    ensures r.Ok? ==> forall y, x :: 0 <= y < height && 0 <= x < width ==> MedianValue(img, width, height, x, y, maskSize) == Ok(r.value[y, x])
  {
    var outputImg := new int[height, width];
    for y := 0 to height
      invariant y > 0 ==> maskSize >= -1
      invariant forall yy, xx :: 0 <= yy < y && 0 <= xx < width ==> MedianValue(img, width, height, xx, yy, maskSize) == Ok(outputImg[yy, xx])
    {
      var ok := MedianRow(img, width, height, y, maskSize, outputImg);
      if !ok {
        return Err(IndexOutOfBounds);
      }
    }
    r := Ok(outputImg);
  }
}
