/**
 * `Filters.bitPlaneSlicing` and `Filters.combineBitPlanes`: both write a gray
 * value as `Integer.toBinaryString`, pad it with '0's on the left to eight
 * characters and read plane `bit` (1 = least significant) at index
 * 7 - (bit - 1) of that string.
 */
module PlaneFilters {
  import opened Results
  import opened Bits
  import opened Raster

  /** The character `Integer.toBinaryString` writes for a binary digit. */
  function Digit(d: nat): char
  {
    if d % 2 == 1 then '1' else '0'
  }

  /** `Integer.toBinaryString(n)` for n >= 0: binary digits, most significant first, no leading zeros. */
  function BinaryString(n: nat): (s: string)
    ensures |s| >= 1
  {
    if n < 2 then [Digit(n)] else BinaryString(n / 2) + [Digit(n % 2)]
  }

  /** s with '0's put in front until it has n characters. */
  function PadLeft(s: string, n: nat): (r: string)
    ensures |r| == if |s| >= n then |s| else n
    ensures forall i :: 0 <= i < |s| ==> r[|r| - |s| + i] == s[i]
    ensures forall i :: 0 <= i < |r| - |s| ==> r[i] == '0'
  {
    if |s| >= n then s else seq(n - |s|, _ => '0') + s
  }

  /**
   * The last k+1-th digit of `toBinaryString(n)` is bit k of n, and n has no
   * bit beyond the digits written.
   */
  lemma {:induction false} BinaryDigits(n: nat, k: nat)
    requires k < |BinaryString(n)|
    ensures BinaryString(n)[|BinaryString(n)| - 1 - k] == (if Bit(n, k) then '1' else '0')
    ensures n < Pow2(|BinaryString(n)|)
  {
    if n < 2 {
      assert Pow2(1) == 2;
    } else {
      var s := BinaryString(n / 2);
      if k > 0 {
        BinaryDigits(n / 2, k - 1);
      } else {
        BinaryDigits(n / 2, 0);
      }
    }
  }

  /** A value below 2^m is written in at most m digits. */
  lemma {:induction false} BinaryLength(n: nat, m: nat)
    requires n < Pow2(m) && m >= 1
    ensures |BinaryString(n)| <= m
  {
    if n >= 2 {
      BinaryLength(n / 2, m - 1);
    }
  }

  /**
   * In the padded eight-character string of a gray value p, index 7 - i
   * holds '1' exactly when bit i of p is set.
   */
  lemma {:induction false} PaddedDigit(p: nat, i: nat)
    requires p < 256 && i < 8
    ensures |PadLeft(BinaryString(p), 8)| == 8
    ensures PadLeft(BinaryString(p), 8)[7 - i] == (if Bit(p, i) then '1' else '0')
  {
    var s := BinaryString(p);
    Pow2Eight();
    BinaryLength(p, 8);
    if i < |s| {
      BinaryDigits(p, i);
    } else {
      BinaryDigits(p, 0);
      HighBitsClear(p, |s|, i);
    }
  }

  /** s has eight characters and its index 7 - i holds bit i of p. */
  predicate PaddedBinary(s: string, p: nat)
  {
    |s| == 8 && forall i :: 0 <= i < 8 ==> s[7 - i] == if Bit(p, i) then '1' else '0'
  }

  /** A gray value as the eight-character string both filters index into. */
  function Binary8(p: nat): (s: string)
    requires p < 256
    ensures PaddedBinary(s, p)
  {
    PaddedDigit(p, 0);
    forall i | 0 <= i < 8
      ensures PadLeft(BinaryString(p), 8)[7 - i] == if Bit(p, i) then '1' else '0'
    {
      PaddedDigit(p, i);
    }
    PadLeft(BinaryString(p), 8)
  }

  /** `Integer.toBinaryString` of a gray value, then the loop that puts '0's in front until there are eight digits. */
  method PadToByte(pixelValue: nat) returns (r: string)
    requires pixelValue < 256
    ensures r == Binary8(pixelValue)
  {
    var s := BinaryString(pixelValue);
    r := s;
    while |r| < 8
      invariant |s| <= |r| && (|r| > 8 ==> r == s)
      invariant r == seq(|r| - |s|, _ => '0') + s
      decreases 8 - |r|
    {
      r := "0" + r;
    }
    PaddedLoopDone(s, r);
    Binary8Padded(pixelValue);
  }

  /** Binary8 is BinaryString padded to eight characters. */
  lemma Binary8Padded(p: nat)
    requires p < 256
    ensures Binary8(p) == PadLeft(BinaryString(p), 8)
  {
  }

  /** When the padding loop stops, it has computed PadLeft. */
  lemma PaddedLoopDone(s: string, r: string)
    requires 8 <= |r| && |s| <= |r| && (|r| > 8 ==> r == s)
    requires r == seq(|r| - |s|, _ => '0') + s
    ensures r == PadLeft(s, 8)
  {
    if |s| < 8 {
      assert |r| == 8;
    } else {
      assert r == s;
    }
  }

  // ---------------------------------------------------------------------
  // bitPlaneSlicing
  // ---------------------------------------------------------------------

  /** The output value of one pixel: 255 for a '1' at index 7 - (bit - 1), 0 for a '0'; `charAt` may throw. */
  function SliceValue(p: nat, bit: int): Result<int, FilterError>
    requires p < 256
  {
    SliceDigit(Binary8(p), bit)
  }

  /** 255 for a '1' at index 7 - (bit - 1) of s, 0 for any other digit; `charAt` throws outside s. */
  function SliceDigit(s: string, bit: int): Result<int, FilterError>
  {
    var index := 7 - (bit - 1);
    if 0 <= index < |s| then Ok(if s[index] == '1' then 255 else 0) else Err(StringIndexOutOfBounds)
  }

  /** For a gray value, slicing plane `bit` in 1..8 shows bit bit-1 as 255 or 0; any other `bit` throws. */
  lemma {:induction false} SliceBit(p: nat, bit: int)
    requires p < 256
    ensures 1 <= bit <= 8 ==> SliceValue(p, bit) == Ok(if Bit(p, bit - 1) then 255 else 0)
    ensures !(1 <= bit <= 8) ==> SliceValue(p, bit) == Err(StringIndexOutOfBounds)
  {
  }

  /** The body of the pixel loop of `bitPlaneSlicing`. */
  method SlicePixel(pixelValue: nat, bit: int) returns (r: Result<int, FilterError>)
    requires pixelValue < 256
    ensures r == SliceValue(pixelValue, bit)
  {
    var binaryPixelValue := PadToByte(pixelValue);
    var index := 7 - (bit - 1);
    if !(0 <= index < |binaryPixelValue|) {
      return Err(StringIndexOutOfBounds);
    }
    r := Ok(if binaryPixelValue[index] == '1' then 255 else 0);
    assert r == SliceDigit(binaryPixelValue, bit);
  }

  /**
   * `bitPlaneSlicing(inputImage, bit)`: every pixel is mapped by
   * `SliceValue`; with a `bit` outside 1..8 the first pixel already throws.
   */
  method BitPlaneSlicing(img: seq<seq<int>>, width: int, height: int, bit: int) returns (r: Result<array2<int>, FilterError>)
    requires IsImage(img, width, height)
    ensures r.Err? <==> !(1 <= bit <= 8)
    ensures r.Err? ==> r.error == StringIndexOutOfBounds
    ensures r.Ok? ==> fresh(r.value) && r.value.Length0 == height && r.value.Length1 == width
    ensures r.Ok? ==> forall y, x :: 0 <= y < height && 0 <= x < width ==> SliceValue(img[y][x], bit) == Ok(r.value[y, x])
  {
    var output := new int[height, width];
    for y := 0 to height
      invariant y > 0 ==> 1 <= bit <= 8
      invariant forall yy, xx :: 0 <= yy < y && 0 <= xx < width ==> SliceValue(img[yy][xx], bit) == Ok(output[yy, xx])
    {
      for x := 0 to width
        invariant x > 0 ==> 1 <= bit <= 8
        invariant forall yy, xx :: 0 <= yy < y && 0 <= xx < width ==> SliceValue(img[yy][xx], bit) == Ok(output[yy, xx])
        invariant forall xx :: 0 <= xx < x ==> SliceValue(img[y][xx], bit) == Ok(output[y, xx])
      {
        var newPixelValue := SlicePixel(img[y][x], bit);
        SliceBit(img[y][x], bit);
        if newPixelValue.Err? {
          return Err(StringIndexOutOfBounds);
        }
        output[y, x] := newPixelValue.value;
      }
    }
    r := Ok(output);
  }

  // ---------------------------------------------------------------------
  // combineBitPlanes
  // ---------------------------------------------------------------------

  /**
   * What one listed plane adds for a padded binary string s: 2^(bit-1) when the digit
   * at index 7 - (bit - 1) is '1', else 0; an index outside the string
   * makes `charAt` throw.
   */
  function PlaneWeight(s: string, bit: int): Result<int, FilterError>
    requires |s| == 8
  {
    var index := 7 - (bit - 1);
    if 0 <= index < |s| then Ok(if s[index] == '1' then Pow2(7 - index) else 0) else Err(StringIndexOutOfBounds)
  }

  /** A plane in 1..8 weighs 2^(bit-1) exactly when bit bit-1 of p is set; any other plane throws. */
  lemma PlaneWeightBit(s: string, p: nat, bit: int)
    requires PaddedBinary(s, p)
    ensures 1 <= bit <= 8 ==> PlaneWeight(s, bit) == Ok(if Bit(p, bit - 1) then Pow2(bit - 1) else 0)
    ensures !(1 <= bit <= 8) ==> PlaneWeight(s, bit) == Err(StringIndexOutOfBounds)
  {
  }

  /** The `for (int bit : bits)` loop over the padded string s: the listed planes' weights summed in order, or the first exception. */
  function CombineSum(s: string, bits: seq<int>): Result<int, FilterError>
    requires |s| == 8
  {
    if bits == [] then Ok(0)
    else match CombineSum(s, bits[..|bits| - 1])
      case Err(e) => Err(e)
      case Ok(acc) =>
        match PlaneWeight(s, bits[|bits| - 1])
        case Err(e) => Err(e)
        case Ok(w) => Ok(acc + w)
  }

  /** One output pixel of `combineBitPlanes`: the sum, which `new Color` refuses above 255. */
  function CombinePixel(p: nat, bits: seq<int>): Result<int, FilterError>
    requires p < 256
  {
    match CombineSum(Binary8(p), bits)
    case Err(e) => Err(e)
    case Ok(v) => if 0 <= v <= 255 then Ok(v) else Err(IllegalArgument)
  }

  /** The value of planes 1..n of p, counting only the planes listed in `planes`. */
  function MaskUpTo(p: nat, planes: seq<int>, n: nat): nat
  {
    if n == 0 then 0
    else MaskUpTo(p, planes, n - 1) + (if n in planes && Bit(p, n - 1) then Pow2(n - 1) else 0)
  }

  /** p restricted to the listed planes among 1..8. */
  function Masked(p: nat, planes: seq<int>): nat
  {
    MaskUpTo(p, planes, 8)
  }

  predicate Distinct(bits: seq<int>)
  {
    forall i, j :: 0 <= i < j < |bits| ==> bits[i] != bits[j]
  }

  /** Listing one more plane b adds its bit's weight, if b is among planes 1..n. */
  lemma {:induction false} MaskInsert(p: nat, planes: seq<int>, b: int, n: nat)
    requires b !in planes
    ensures MaskUpTo(p, planes + [b], n) == MaskUpTo(p, planes, n) + (if 1 <= b <= n && Bit(p, b - 1) then Pow2(b - 1) else 0)
  {
    if n > 0 {
      MaskInsert(p, planes, b, n - 1);
      assert n in planes + [b] <==> n in planes || n == b;
    }
  }

  /** Listed planes give at most the value of the low n bits, and exactly that when planes 1..n are all listed. */
  lemma {:induction false} MaskBound(p: nat, planes: seq<int>, n: nat)
    ensures MaskUpTo(p, planes, n) <= BitsValue(LowBits(p, n))
    ensures (forall k :: 1 <= k <= n ==> k in planes) ==> MaskUpTo(p, planes, n) == BitsValue(LowBits(p, n))
  {
    if n > 0 {
      MaskBound(p, planes, n - 1);
      LowBitsSnoc(p, n - 1);
      BitsValueSnoc(LowBits(p, n - 1), Bit(p, n - 1));
    }
  }

  /** No listed plane, no value. */
  lemma {:induction false} MaskNone(p: nat, n: nat)
    ensures MaskUpTo(p, [], n) == 0
  {
    if n > 0 {
      MaskNone(p, n - 1);
    }
  }

  /** For distinct planes in 1..n (n at most 8) the loop's sum is the value of those planes of p. */
  lemma {:induction false} CombineSumMasked(s: string, p: nat, bits: seq<int>, n: nat)
    requires PaddedBinary(s, p) && n <= 8 && Distinct(bits) && forall i :: 0 <= i < |bits| ==> 1 <= bits[i] <= n
    ensures CombineSum(s, bits) == Ok(MaskUpTo(p, bits, n))
  {
    if bits == [] {
      MaskNone(p, n);
      assert CombineSum(s, bits) == Ok(0);
    } else {
      var init, b := bits[..|bits| - 1], bits[|bits| - 1];
      DistinctLast(bits);
      CombineSumMasked(s, p, init, n);
      MaskInsert(p, init, b, n);
      assert init + [b] == bits;
      PlaneWeightBit(s, p, b);
      CombineSumLast(s, bits, init, b, MaskUpTo(p, init, n), if Bit(p, b - 1) then Pow2(b - 1) else 0);
    }
  }

  /** Dropping the last plane of a list without repeats leaves a list without repeats that misses it. */
  lemma DistinctLast(bits: seq<int>)
    requires Distinct(bits) && bits != []
    ensures Distinct(bits[..|bits| - 1]) && bits[|bits| - 1] !in bits[..|bits| - 1]
  {
  }

  /** One more iteration of the loop adds the last plane's weight to the sum so far. */
  lemma CombineSumLast(s: string, bits: seq<int>, init: seq<int>, last: int, acc: int, w: int)
    requires |s| == 8 && bits == init + [last]
    requires CombineSum(s, init) == Ok(acc) && PlaneWeight(s, last) == Ok(w)
    ensures CombineSum(s, bits) == Ok(acc + w)
  {
    assert bits[..|bits| - 1] == init;
  }

  /**
   * For distinct planes in 1..8, `combineBitPlanes` keeps exactly the chosen
   * bits of p (so no `Color` can be refused), and listing all of 1..8 gives
   * p back.
   */
  lemma {:induction false} CombineDistinct(p: nat, bits: seq<int>)
    requires p < 256 && Distinct(bits) && forall i :: 0 <= i < |bits| ==> 1 <= bits[i] <= 8
    ensures CombinePixel(p, bits) == Ok(Masked(p, bits))
    ensures (forall k :: 1 <= k <= 8 ==> k in bits) ==> CombinePixel(p, bits) == Ok(p)
  {
    CombineSumMasked(Binary8(p), p, bits, 8);
    MaskBound(p, bits, 8);
    Pow2Eight();
    LowBitsValue(p, 8);
  }

  /** Bit 7 of a gray value is set exactly from 128 on. */
  lemma TopBit(p: nat)
    requires p < 256
    ensures Bit(p, 7) <==> p >= 128
  {
    Pow2Eight();
    LowBitsValue(p, 8);
    LowBitsSnoc(p, 7);
    BitsValueSnoc(LowBits(p, 7), Bit(p, 7));
  }

  /** A plane listed twice counts twice: plane 8 twice on a pixel from 128 on sums to 256, which `new Color` refuses. */
  lemma DuplicatePlaneRefused(p: nat)
    requires 128 <= p < 256
    ensures CombinePixel(p, [8, 8]) == Err(IllegalArgument)
  {
    TopBit(p);
    assert [8, 8][..1] == [8] && [8][..0] == [];
    assert Pow2(7) == 128;
    assert CombineSum(Binary8(p), [8]) == Ok(128);
  }

  /** The `for (int bit : bits)` loop over one pixel's padded binary string. */
  method CombineBits(binaryPixelValue: string, bits: seq<int>) returns (r: Result<int, FilterError>)
    requires |binaryPixelValue| == 8
    ensures r == CombineSum(binaryPixelValue, bits)
  {
    var combinedPixelValue := 0;
    for k := 0 to |bits|
      invariant CombineSum(binaryPixelValue, bits[..k]) == Ok(combinedPixelValue)
    {
      CombineStep(binaryPixelValue, bits, k, combinedPixelValue);
      var bit := bits[k];
      var bitPosition := 7 - (bit - 1);
      if !(0 <= bitPosition < |binaryPixelValue|) {
        CombineErr(binaryPixelValue, bits, k + 1);
        return Err(StringIndexOutOfBounds);
      }
      var bitValue := if binaryPixelValue[bitPosition] == '1' then 1 else 0;
      var weight := Pow2(7 - bitPosition);
      assert PlaneWeight(binaryPixelValue, bit) == Ok(bitValue * weight);
      combinedPixelValue := combinedPixelValue + bitValue * weight;
    }
    assert bits[..|bits|] == bits;
    r := Ok(combinedPixelValue);
  }

  /** The body of the pixel loop: pad, combine, and refuse a sum above 255. */
  method CombineAt(p: nat, bits: seq<int>) returns (r: Result<int, FilterError>)
    requires p < 256
    ensures r == CombinePixel(p, bits)
  {
    var binaryPixelValue := PadToByte(p);
    var combined := CombineBits(binaryPixelValue, bits);
    if combined.Err? {
      return Err(combined.error);
    }
    var combinedPixelValue := combined.value;
    if !(0 <= combinedPixelValue <= 255) {
      return Err(IllegalArgument);
    }
    r := Ok(combinedPixelValue);
  }

  /** One more pass of the `for (int bit : bits)` loop. */
  lemma CombineStep(s: string, bits: seq<int>, k: nat, acc: int)
    requires |s| == 8 && k < |bits| && CombineSum(s, bits[..k]) == Ok(acc)
    ensures PlaneWeight(s, bits[k]).Ok? ==> CombineSum(s, bits[..k + 1]) == Ok(acc + PlaneWeight(s, bits[k]).value)
    ensures PlaneWeight(s, bits[k]).Err? ==> CombineSum(s, bits[..k + 1]) == PlaneWeight(s, bits[k])
  {
    assert bits[..k + 1][..k] == bits[..k];
  }

  /** Once the loop has thrown it stays thrown. */
  lemma {:induction false} CombineErr(s: string, bits: seq<int>, k: nat)
    requires |s| == 8
    requires k <= |bits| && CombineSum(s, bits[..k]).Err?
    ensures CombineSum(s, bits) == CombineSum(s, bits[..k])
    decreases |bits| - k
  {
    if k < |bits| {
      assert bits[..k + 1][..k] == bits[..k];
      CombineErr(s, bits, k + 1);
    } else {
      assert bits[..k] == bits;
    }
  }

  /**
   * `combineBitPlanes(inputImage, bits)`: every pixel is mapped by
   * `CombinePixel`, and the method throws when some pixel does.
   */
  method CombineBitPlanes(img: seq<seq<int>>, width: int, height: int, bits: seq<int>) returns (r: Result<array2<int>, FilterError>)
    requires IsImage(img, width, height)
    ensures r.Ok? <==> forall y, x :: 0 <= y < height && 0 <= x < width ==> CombinePixel(img[y][x], bits).Ok?
    ensures r.Err? ==> exists y, x :: 0 <= y < height && 0 <= x < width && CombinePixel(img[y][x], bits) == Err(r.error)
    ensures r.Ok? ==> fresh(r.value) && r.value.Length0 == height && r.value.Length1 == width
    ensures r.Ok? ==> forall y, x :: 0 <= y < height && 0 <= x < width ==> CombinePixel(img[y][x], bits) == Ok(r.value[y, x])
  {
    var outputImage := new int[height, width];
    for y := 0 to height
      invariant forall yy, xx :: 0 <= yy < y && 0 <= xx < width ==> CombinePixel(img[yy][xx], bits) == Ok(outputImage[yy, xx])
    {
      for x := 0 to width
        invariant forall yy, xx :: 0 <= yy < y && 0 <= xx < width ==> CombinePixel(img[yy][xx], bits) == Ok(outputImage[yy, xx])
        invariant forall xx :: 0 <= xx < x ==> CombinePixel(img[y][xx], bits) == Ok(outputImage[y, xx])
      {
        var combined := CombineAt(img[y][x], bits);
        if combined.Err? {
          return Err(combined.error);
        }
        outputImage[y, x] := combined.value;
      }
    }
    r := Ok(outputImage);
  }
}
