/**
 * The neighbourhood scan shared by `smoothingBoxFilter` and `medianFilter`:
 * for offsets yj from lo to hi (outer loop) and xi from lo to hi (inner
 * loop), the pixel at (x + xi, y + yj) is taken when it lies inside the
 * image. `Window` lists the taken pixels in that order.
 */
module Windows {
  import opened Raster

  predicate InImage(px: int, py: int, width: int, height: int)
  {
    0 <= px < width && 0 <= py < height
  }

  /** The pixels of row offset yj for column offsets lo .. xiEnd - 1 that lie inside the image. */
  function RowWindow(img: seq<seq<int>>, width: int, height: int, x: int, y: int, yj: int, lo: int, xiEnd: int): seq<int>
    requires IsImage(img, width, height)
    decreases xiEnd - lo
  {
    if xiEnd <= lo then []
    else
      var xi := xiEnd - 1;
      RowWindow(img, width, height, x, y, yj, lo, xi)
        + (if InImage(x + xi, y + yj, width, height) then [img[y + yj][x + xi]] else [])
  }

  /** The pixels of row offsets lo .. yjEnd - 1, each row scanned over column offsets lo .. hi. */
  function WindowRows(img: seq<seq<int>>, width: int, height: int, x: int, y: int, lo: int, yjEnd: int, hi: int): seq<int>
    requires IsImage(img, width, height)
    decreases yjEnd - lo
  {
    if yjEnd <= lo then []
    else WindowRows(img, width, height, x, y, lo, yjEnd - 1, hi) + RowWindow(img, width, height, x, y, yjEnd - 1, lo, hi + 1)
  }

  /** The in-image pixels of the square of offsets lo .. hi around (x, y), in scan order. */
  function Window(img: seq<seq<int>>, width: int, height: int, x: int, y: int, lo: int, hi: int): seq<int>
    requires IsImage(img, width, height)
  {
    WindowRows(img, width, height, x, y, lo, hi + 1, hi)
  }

  function Sum(s: seq<int>): int
  {
    if s == [] then 0 else Sum(s[..|s| - 1]) + s[|s| - 1]
  }

  function Min(s: seq<int>): int
    requires s != []
  {
    if |s| == 1 then s[0] else var m := Min(s[..|s| - 1]); if s[|s| - 1] < m then s[|s| - 1] else m
  }

  function Max(s: seq<int>): int
    requires s != []
  {
    if |s| == 1 then s[0] else var m := Max(s[..|s| - 1]); if s[|s| - 1] > m then s[|s| - 1] else m
  }

  /** The minimum and maximum are entries of s and bound every entry. */
  lemma {:induction false} MinMax(s: seq<int>)
    requires s != []
    ensures Min(s) in s && Max(s) in s
    ensures forall k :: 0 <= k < |s| ==> Min(s) <= s[k] <= Max(s)
  {
    if |s| > 1 {
      MinMax(s[..|s| - 1]);
      assert s == s[..|s| - 1] + [s[|s| - 1]];
    }
  }

  lemma {:induction false} ScaleLe(a: int, b: int, n: nat)
    requires a <= b
    ensures a * n <= b * n
  {
    if n > 0 {
      ScaleLe(a, b, n - 1);
      assert a * n == a * (n - 1) + a && b * n == b * (n - 1) + b;
    }
  }

  /** The sum of s lies between |s| copies of its minimum and |s| copies of its maximum. */
  lemma {:induction false} SumBounds(s: seq<int>)
    requires s != []
    ensures Min(s) * |s| <= Sum(s) <= Max(s) * |s|
  {
    if |s| > 1 {
      var init, last := s[..|s| - 1], s[|s| - 1];
      SumBounds(init);
      assert Min(s) <= Min(init) && Min(s) <= last;
      assert Max(init) <= Max(s) && last <= Max(s);
      BoundsStep(Min(s), Min(init), Max(init), Max(s), |init|, Sum(init), last);
    } else {
      assert s[..0] == [];
    }
  }

  /** Bounds on n values and on one more value give bounds on the n + 1 values. */
  lemma BoundsStep(lo: int, loInit: int, hiInit: int, hi: int, n: nat, sumInit: int, last: int)
    requires lo <= loInit && hiInit <= hi && lo <= last <= hi
    requires loInit * n <= sumInit <= hiInit * n
    ensures lo * (n + 1) <= sumInit + last <= hi * (n + 1)
  {
    ScaleLe(lo, loInit, n);
    ScaleLe(hiInit, hi, n);
    assert lo * (n + 1) == lo * n + lo;
    assert hi * (n + 1) == hi * n + hi;
  }

  /** An entry of a gray stream is a gray level. */
  lemma InGrayStream(s: seq<int>, v: int)
    requires IsGrayStream(s) && v in s
    ensures IsGray(v)
  {
  }

  /** A gray stream has a non-negative sum. */
  lemma {:induction false} GraySum(s: seq<int>)
    requires IsGrayStream(s)
    ensures Sum(s) >= 0
  {
    if s != [] {
      GraySum(s[..|s| - 1]);
      assert IsGray(s[|s| - 1]);
    }
  }

  /** The floor mean of a non-empty gray stream is a gray level between its minimum and maximum. */
  lemma GrayMean(s: seq<int>)
    requires s != [] && IsGrayStream(s)
    ensures Min(s) <= Sum(s) / |s| <= Max(s) && IsGray(Sum(s) / |s|)
  {
    MeanBounds(s);
    MinMax(s);
  }

  /** The floor mean of a non-empty sequence lies between its minimum and maximum. */
  lemma MeanBounds(s: seq<int>)
    requires s != []
    ensures Min(s) <= Sum(s) / |s| <= Max(s)
  {
    SumBounds(s);
    QuotientBetween(Sum(s), |s|, Min(s), Max(s));
  }

  /** A total between lo * n and hi * n has its floor quotient by n between lo and hi. */
  lemma QuotientBetween(total: int, n: int, lo: int, hi: int)
    requires n > 0 && lo * n <= total <= hi * n
    ensures lo <= total / n <= hi
  {
    var q := total / n;
    assert q * n <= total < q * n + n by {
      assert total == n * q + total % n;
    }
    assert (q + 1) * n == q * n + n;
    assert (hi + 1) * n == hi * n + n;
    if q < lo {
      ScaleLe(q + 1, lo, n);
      assert false;
    }
    if q > hi {
      ScaleLe(hi + 1, q, n);
      assert false;
    }
  }

  /** Sum distributes over concatenation. */
  lemma {:induction false} SumAppend(a: seq<int>, b: seq<int>)
    ensures Sum(a + b) == Sum(a) + Sum(b)
  {
    if b == [] {
      assert a + b == a;
    } else {
      var init := b[..|b| - 1];
      SumAppend(a, init);
      assert (a + b)[..|a + b| - 1] == a + init;
    }
  }

  /** Offset (xi, yj) from (x, y) lands inside the image. */
  predicate Inside(width: int, height: int, x: int, y: int, xi: int, yj: int)
  {
    InImage(x + xi, y + yj, width, height)
  }

  /** The pixel at offset (xi, yj) from (x, y). */
  function Neighbour(img: seq<seq<int>>, width: int, height: int, x: int, y: int, xi: int, yj: int): int
    requires IsImage(img, width, height) && Inside(width, height, x, y, xi, yj)
  {
    img[y + yj][x + xi]
  }

  /** Every in-image offset lo <= xi < xiEnd of row yj contributes its pixel. */
  lemma {:induction false} RowWindowCovers(img: seq<seq<int>>, width: int, height: int, x: int, y: int, yj: int, lo: int, xiEnd: int, xi: int)
    requires IsImage(img, width, height)
    requires lo <= xi < xiEnd && Inside(width, height, x, y, xi, yj)
    ensures Neighbour(img, width, height, x, y, xi, yj) in RowWindow(img, width, height, x, y, yj, lo, xiEnd)
    decreases xiEnd - lo
  {
    var v := Neighbour(img, width, height, x, y, xi, yj);
    var before := RowWindow(img, width, height, x, y, yj, lo, xiEnd - 1);
    if xi < xiEnd - 1 {
      RowWindowCovers(img, width, height, x, y, yj, lo, xiEnd - 1, xi);
      assert v in before;
    } else {
      assert RowWindow(img, width, height, x, y, yj, lo, xiEnd) == before + [v];
    }
  }

  /** Every in-image offset pair in lo .. hi contributes its pixel to the rows up to yjEnd. */
  lemma {:induction false} WindowRowsCover(img: seq<seq<int>>, width: int, height: int, x: int, y: int, lo: int, yjEnd: int, hi: int, yj: int, xi: int)
    requires IsImage(img, width, height)
    requires lo <= yj < yjEnd && lo <= xi <= hi && Inside(width, height, x, y, xi, yj)
    ensures Neighbour(img, width, height, x, y, xi, yj) in WindowRows(img, width, height, x, y, lo, yjEnd, hi)
    decreases yjEnd - lo
  {
    var v := Neighbour(img, width, height, x, y, xi, yj);
    var before := WindowRows(img, width, height, x, y, lo, yjEnd - 1, hi);
    var row := RowWindow(img, width, height, x, y, yjEnd - 1, lo, hi + 1);
    assert WindowRows(img, width, height, x, y, lo, yjEnd, hi) == before + row;
    if yj < yjEnd - 1 {
      WindowRowsCover(img, width, height, x, y, lo, yjEnd - 1, hi, yj, xi);
      assert v in before;
    } else {
      RowWindowCovers(img, width, height, x, y, yj, lo, hi + 1, xi);
      assert v in row;
    }
  }

  /** Every in-image pixel at offsets in lo .. hi is in the window. */
  lemma WindowCovers(img: seq<seq<int>>, width: int, height: int, x: int, y: int, lo: int, hi: int)
    requires IsImage(img, width, height)
    ensures forall yj, xi :: lo <= yj <= hi && lo <= xi <= hi && Inside(width, height, x, y, xi, yj) ==>
      Neighbour(img, width, height, x, y, xi, yj) in Window(img, width, height, x, y, lo, hi)
  {
    var end := hi + 1;
    assert Window(img, width, height, x, y, lo, hi) == WindowRows(img, width, height, x, y, lo, end, hi);
    forall yj, xi | lo <= yj <= hi && lo <= xi <= hi && Inside(width, height, x, y, xi, yj)
      ensures Neighbour(img, width, height, x, y, xi, yj) in WindowRows(img, width, height, x, y, lo, end, hi)
    {
      WindowRowsCover(img, width, height, x, y, lo, end, hi, yj, xi);
    }
  }

  lemma {:induction false} RowWindowGray(img: seq<seq<int>>, width: int, height: int, x: int, y: int, yj: int, lo: int, xiEnd: int)
    requires IsImage(img, width, height)
    ensures IsGrayStream(RowWindow(img, width, height, x, y, yj, lo, xiEnd))
    decreases xiEnd - lo
  {
    if xiEnd > lo {
      RowWindowGray(img, width, height, x, y, yj, lo, xiEnd - 1);
    }
  }

  lemma {:induction false} WindowRowsGray(img: seq<seq<int>>, width: int, height: int, x: int, y: int, lo: int, yjEnd: int, hi: int)
    requires IsImage(img, width, height)
    ensures IsGrayStream(WindowRows(img, width, height, x, y, lo, yjEnd, hi))
    decreases yjEnd - lo
  {
    if yjEnd > lo {
      WindowRowsGray(img, width, height, x, y, lo, yjEnd - 1, hi);
      RowWindowGray(img, width, height, x, y, yjEnd - 1, lo, hi + 1);
    }
  }

  /** A window holds only gray levels. */
  lemma WindowGray(img: seq<seq<int>>, width: int, height: int, x: int, y: int, lo: int, hi: int)
    requires IsImage(img, width, height)
    ensures IsGrayStream(Window(img, width, height, x, y, lo, hi))
  {
    WindowRowsGray(img, width, height, x, y, lo, hi + 1, hi);
  }

  /** A window whose offset range contains 0 holds the pixel itself; an empty offset range holds nothing. */
  lemma WindowCentre(img: seq<seq<int>>, width: int, height: int, x: int, y: int, lo: int, hi: int)
    requires IsImage(img, width, height) && InImage(x, y, width, height)
    ensures lo <= 0 <= hi ==> img[y][x] in Window(img, width, height, x, y, lo, hi)
    ensures hi < lo ==> Window(img, width, height, x, y, lo, hi) == []
  {
    var end := hi + 1;
    assert Window(img, width, height, x, y, lo, hi) == WindowRows(img, width, height, x, y, lo, end, hi);
    if lo <= 0 <= hi {
      NeighbourSelf(img, width, height, x, y);
      WindowRowsCover(img, width, height, x, y, lo, end, hi, 0, 0);
    } else if hi < lo {
      assert WindowRows(img, width, height, x, y, lo, end, hi) == [];
    }
  }

  lemma NeighbourSelf(img: seq<seq<int>>, width: int, height: int, x: int, y: int)
    requires IsImage(img, width, height) && InImage(x, y, width, height)
    ensures Inside(width, height, x, y, 0, 0) && Neighbour(img, width, height, x, y, 0, 0) == img[y][x]
  {
    assert y + 0 == y && x + 0 == x;
  }

  /** A row part lying wholly inside the image has one pixel per offset. */
  lemma {:induction false} RowWindowSize(img: seq<seq<int>>, width: int, height: int, x: int, y: int, yj: int, lo: int, xiEnd: int)
    requires IsImage(img, width, height) && lo <= xiEnd
    requires 0 <= y + yj < height && 0 <= x + lo && x + xiEnd <= width
    ensures |RowWindow(img, width, height, x, y, yj, lo, xiEnd)| == xiEnd - lo
    decreases xiEnd - lo
  {
    if xiEnd > lo {
      RowWindowSize(img, width, height, x, y, yj, lo, xiEnd - 1);
    }
  }

  /** Rows lying wholly inside the image give one pixel per offset pair. */
  lemma {:induction false} WindowRowsSize(img: seq<seq<int>>, width: int, height: int, x: int, y: int, lo: int, yjEnd: int, hi: int)
    requires IsImage(img, width, height) && lo <= yjEnd && lo <= hi + 1
    requires 0 <= y + lo && y + yjEnd <= height && 0 <= x + lo && x + hi < width
    ensures |WindowRows(img, width, height, x, y, lo, yjEnd, hi)| == (yjEnd - lo) * (hi + 1 - lo)
    decreases yjEnd - lo
  {
    if yjEnd > lo {
      var before := WindowRows(img, width, height, x, y, lo, yjEnd - 1, hi);
      var row := RowWindow(img, width, height, x, y, yjEnd - 1, lo, hi + 1);
      assert |WindowRows(img, width, height, x, y, lo, yjEnd, hi)| == |before| + |row|;
      WindowRowsSize(img, width, height, x, y, lo, yjEnd - 1, hi);
      RowWindowSize(img, width, height, x, y, yjEnd - 1, lo, hi + 1);
      MulSucc(|before|, |row|, yjEnd - 1 - lo, yjEnd - lo, hi + 1 - lo);
    }
  }

  /** One more row of b pixels adds b to the count. */
  lemma MulSucc(total: int, more: int, a: int, c: int, b: int)
    requires total == a * b && more == b && c == a + 1
    ensures total + more == c * b
  {
  }
}
