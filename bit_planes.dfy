/**
 * The bit-plane run-length codec on `BitSet`s: the eight planes of a gray
 * raster are extracted, each plane is written as 32-bit run-length fields, and
 * decompression decodes each plane and ORs bit b of every pixel back in.
 * Every method is proved against the value-level definitions of the
 * `BitPlaneFields` module.
 */
module BitPlaneCoding {
  import opened Bits
  import opened BitSets
  import opened Results
  import opened Raster
  import opened BitPlaneFields
  import opened JavaInt

  /** The number of planes of an 8-bit gray raster. */
  const BitDepth: nat := 8

  /** Java's `1 << i` as an `int`: for i = 31 it is the sign bit, -2^31. */
  function ShiftedOne(i: nat): (r: int)
    requires i < 32
    ensures r == if i == 31 then -Two31 else Pow2(i)
  {
    if i == 31 then -Two31 else Pow2(i)
  }

  // ---------------------------------------------------------------------
  // One 32-bit field

  /**
   * `writeCountToBitSet`: sets bit startIndex + i, in Java `int` addition, for
   * every bit i of the 32-bit two's complement of count, and returns
   * startIndex + 32. A set bit whose index wraps below 0 makes `BitSet.set`
   * throw; every other bit stays as it was.
   */
  method WriteCountToBitSet(encoded: BitSet, count: int, start: int) returns (r: Result<int, BitSetError>)
    requires -Two31 <= count < Two31 && -Two31 <= start < Two31
    modifies encoded
    ensures r.Err? <==> exists i :: 0 <= i < 32 && Bit(Unsigned32(count), i) && AddInt(start, i) < 0
    ensures r.Ok? ==> r.value == AddInt(start, 32)
    ensures r.Ok? ==> encoded.members == old(encoded.members) + IntFieldBits(Unsigned32(count), start, 32)
  {
    for i := 0 to 32
      invariant encoded.members == old(encoded.members) + IntFieldBits(Unsigned32(count), start, i)
      invariant forall j :: 0 <= j < i ==> !(Bit(Unsigned32(count), j) && AddInt(start, j) < 0)
    {
      // `(count & (1 << i)) != 0` tests bit i of the two's complement of count.
      if Bit(Unsigned32(count), i) {
        var index := AddInt(start, i);
        if index < 0 {
          return Err(BitSetError.IndexOutOfBounds);
        }
        encoded.Set(index);
      }
    }
    r := Ok(AddInt(start, 32));
  }

  /**
   * `readCountFromBitSet`: the `int` whose 32 bits are the bits of the set at
   * start..start+31, bit 31 being the sign.
   */
  method ReadCountFromBitSet(encoded: BitSet, start: nat) returns (count: int)
    ensures count == Int32Of(Window(encoded.members, start))
  {
    ghost var w := Window(encoded.members, start);
    count := 0;
    for i := 0 to 32
      invariant count == BitsValue(w[..i]) - (if i == 32 && w[31] then Two32 else 0)
    {
      ReadStep(w, i, count);
      if encoded.Get(start + i) {
        // The bits below i are the only ones set so far, so `count |= 1 << i` adds `1 << i`.
        count := count + ShiftedOne(i);
      }
    }
    assert w[..32] == w;
  }

  /** Bit i of a field adds 2^i to the count; bit 31 adds -2^31, that is 2^31 - 2^32. */
  lemma ReadStep(w: seq<bool>, i: nat, count: int)
    requires |w| == 32 && i < 32
    requires count == BitsValue(w[..i])
    ensures count + (if w[i] then ShiftedOne(i) else 0) == BitsValue(w[..i + 1]) - (if i + 1 == 32 && w[31] then Two32 else 0)
  {
    assert w[..i + 1] == w[..i] + [w[i]];
    BitsValueSnoc(w[..i], w[i]);
    Pow2Of31And32();
  }

  // ---------------------------------------------------------------------
  // One plane

  /**
   * `encodeBitSet`: a fresh bit set holding the run-length fields of the first
   * size bits of the plane, one 32-bit field after the other. The field index
   * is a Java `int`: field MaxFields would start at 2^31, which wraps to
   * -2^31, and writing its (non-zero) count there throws. So the encoding
   * fails exactly when the plane has more than MaxFields fields.
   */
  method EncodeBitSet(bitSet: BitSet, size: nat) returns (r: Result<BitSet, BitSetError>)
    requires size < Two31
    ensures r.Ok? <==> |Fields(PlaneBits(bitSet.members, size))| <= MaxFields
    ensures r.Ok? ==> fresh(r.value) && r.value.members == Members(Stream(Fields(PlaneBits(bitSet.members, size))))
  {
    var encoded := new BitSet();
    ghost var plane := PlaneBits(bitSet.members, size);
    ghost var written: seq<nat> := [];
    var lastBit := false;
    var count := 0;
    var encodedIndex := 0;
    WholePlane(plane);
    for i := 0 to size
      invariant fresh(encoded)
      invariant Encoded(plane, i, written, count, lastBit, encodedIndex, encoded.members)
    {
      var currentBit := bitSet.Get(i);
      var next;
      next, written, count, lastBit := EncodeStep(encoded, plane, i, currentBit, written, count, lastBit, encodedIndex);
      if next.Err? {
        return Err(next.error);
      }
      encodedIndex := next.value;
    }
    var last := WriteField(encoded, written, count, encodedIndex);
    if last.Err? {
      return Err(last.error);
    }
    r := Ok(encoded);
  }

  /**
   * What the loop of `encodeBitSet` keeps after i bits: the fields of those
   * bits are the written ones followed by the pending count, which is at least
   * 1 after the first field; lastBit is the last of the bits; the bit set holds
   * the written fields one after the other; and the `int` field index is
   * 32 times their number, wrapped.
   */
  ghost predicate Encoded(plane: seq<bool>, i: nat, written: seq<nat>, count: nat, lastBit: bool, encodedIndex: int, members: set<nat>)
  {
    && i <= |plane|
    && Fields(plane[..i]) == written + [count]
    && (written != [] ==> count >= 1)
    && lastBit == LastBit(plane[..i])
    && count <= i
    && |written| <= MaxFields
    && encodedIndex == FieldIndex(|written|)
    && members == Members(Stream(written))
  }

  /**
   * One pass of the `for i` loop: a repeated bit lengthens the pending count,
   * a changed bit writes the pending count out and starts a count of 1. The
   * write fails when MaxFields fields are already written.
   */
  method EncodeStep(encoded: BitSet, ghost plane: seq<bool>, i: nat, currentBit: bool, ghost written: seq<nat>, count: nat, lastBit: bool, encodedIndex: int)
    returns (next: Result<int, BitSetError>, ghost written': seq<nat>, count': nat, lastBit': bool)
    requires i < |plane| < Two31 && currentBit == plane[i]
    requires Encoded(plane, i, written, count, lastBit, encodedIndex, encoded.members)
    modifies encoded
    ensures next.Ok? ==> Encoded(plane, i + 1, written', count', lastBit', next.value, encoded.members)
    ensures next.Err? ==> |Fields(plane)| > MaxFields
  {
    if currentBit == lastBit {
      EncodeSameBit(plane, i, written, count, lastBit);
      next, written', count', lastBit' := Ok(encodedIndex), written, count + 1, lastBit;
    } else {
      EncodeNewBit(plane, i, written, count, lastBit, currentBit);
      next := WriteField(encoded, written, count, encodedIndex);
      written', count', lastBit' := written + [count], 1, currentBit;
      if next.Err? {
        FieldsPrefixLength(plane, i + 1);
      }
    }
  }

  /**
   * Writing the next field after the written ones stores the fields with the
   * new one appended, unless MaxFields fields are written already: then the
   * index has wrapped to -2^31 and the count, not 0, has a bit to set there.
   */
  method WriteField(encoded: BitSet, ghost written: seq<nat>, count: nat, encodedIndex: int) returns (next: Result<int, BitSetError>)
    requires count < Two31 && (written != [] ==> count >= 1)
    requires |written| <= MaxFields && encodedIndex == FieldIndex(|written|) && encoded.members == Members(Stream(written))
    modifies encoded
    ensures next.Ok? <==> |written| < MaxFields
    ensures next.Ok? ==> next.value == FieldIndex(|written| + 1) && encoded.members == Members(Stream(written + [count]))
  {
    MaxFieldsSpan();
    next := WriteCountToBitSet(encoded, count, encodedIndex);
    if |written| < MaxFields {
      var start := 32 * |written|;
      assert encodedIndex == start;
      assert forall i :: 0 <= i < 32 ==> AddInt(start, i) == start + i;
      if next.Ok? {
        IntFieldBitsInRange(Unsigned32(count), start, 32);
        MembersOfStreamSnoc(written, count);
      }
    } else {
      assert encodedIndex == -Two31;
      Pow2Of31And32();
      NonzeroHasBit(Unsigned32(count), 32);
      var i :| 0 <= i < 32 && Bit(Unsigned32(count), i);
      assert AddInt(encodedIndex, i) < 0;
    }
  }

  /** The empty and the whole prefix of a plane. */
  lemma WholePlane(plane: seq<bool>)
    ensures plane[..0] == [] && plane[..|plane|] == plane
  {
  }

  /** A repeated bit lengthens the pending count. */
  lemma {:induction false} EncodeSameBit(plane: seq<bool>, i: nat, written: seq<nat>, count: nat, lastBit: bool)
    requires i < |plane| && Fields(plane[..i]) == written + [count] && lastBit == LastBit(plane[..i])
    requires plane[i] == lastBit
    ensures Fields(plane[..i + 1]) == written + [count + 1] && LastBit(plane[..i + 1]) == lastBit
  {
    var q := plane[..i];
    PrefixSnoc(plane, i);
    FieldsSnoc(q, lastBit);
    BumpLast(written, count);
  }

  /** Adding one to the last count of written + [count]. */
  lemma BumpLast(written: seq<nat>, count: nat)
    ensures var f := written + [count]; f[..|f| - 1] + [f[|f| - 1] + 1] == written + [count + 1]
  {
    assert (written + [count])[..|written|] == written;
  }

  lemma PrefixSnoc(plane: seq<bool>, i: nat)
    requires i < |plane|
    ensures plane[..i + 1] == plane[..i] + [plane[i]]
  {
  }

  /** A changed bit closes the pending count and starts a count of 1. */
  lemma {:induction false} EncodeNewBit(plane: seq<bool>, i: nat, written: seq<nat>, count: nat, lastBit: bool, b: bool)
    requires i < |plane| && Fields(plane[..i]) == written + [count] && lastBit == LastBit(plane[..i])
    requires b == plane[i] && b != lastBit
    ensures Fields(plane[..i + 1]) == (written + [count]) + [1] && LastBit(plane[..i + 1]) == b
  {
    var q := plane[..i];
    PrefixSnoc(plane, i);
    FieldsSnoc(q, b);
  }

  /**
   * `decodeBitSet` with the given stride between fields (`NextClearStride` is
   * the code as written, `FieldStride` the corrected one): while a bit is set at
   * or after the field position, read a count, set the run when it is a run of
   * set bits, and advance the index by the count with `int` addition. A run
   * `set(index, index + count)` with a negative bound or a reversed range is the
   * `IndexOutOfBoundsException` of `BitSet.set`.
   */
  method DecodeBitSet(encoded: BitSet, stride: Stride) returns (r: Result<BitSet, BitSetError>)
    ensures r.Ok? ==> fresh(r.value) && DecodeRuns(encoded.members, stride, 0, 0, false, {}) == Ok(r.value.members)
    ensures r.Err? ==> DecodeRuns(encoded.members, stride, 0, 0, false, {}) == Err(r.error)
  {
    ghost var m := encoded.members;
    var decoded := new BitSet();
    var decodedIndex := 0;
    var currentBit := false;
    var i: nat := 0;
    while HasSetBitFrom(encoded.members, i)
      invariant fresh(decoded) && encoded.members == m
      invariant -Two31 <= decodedIndex < Two31
      invariant DecodeRuns(m, stride, i, decodedIndex, currentBit, decoded.members) == DecodeRuns(m, stride, 0, 0, false, {})
      decreases Bound(m) - i
    {
      ghost var k :| k in m && k >= i;
      ghost var acc := decoded.members;
      var count := ReadCountFromBitSet(encoded, i);
      Int32Range(Window(m, i));
      var to := AddInt(decodedIndex, count);
      if currentBit {
        if decodedIndex < 0 || to < 0 || decodedIndex > to {
          DecodeRunsFails(m, stride, i, decodedIndex, acc, count, to);
          return Err(BitSetError.IndexOutOfBounds);
        }
        decoded.SetRange(decodedIndex, to);
      }
      var next := if stride == FieldStride then i + 32 else NextClearBit(encoded.members, i + 1);
      DecodeRunsNext(m, stride, i, decodedIndex, currentBit, acc, count, to, next, decoded.members);
      decodedIndex := to;
      currentBit := !currentBit;
      i := next;
    }
    DecodeRunsEnd(m, stride, i, decodedIndex, currentBit, decoded.members);
    r := Ok(decoded);
  }

  /** A run of set bits whose bounds `BitSet.set` refuses ends the decoding with that error. */
  lemma {:induction false} DecodeRunsFails(m: set<nat>, stride: Stride, i: nat, index: int, acc: set<nat>, count: int, to: int)
    requires -Two31 <= index < Two31
    requires HasSetBitFrom(m, i) && count == Int32Of(Window(m, i)) && -Two31 <= count < Two31 && to == AddInt(index, count)
    requires index < 0 || to < 0 || index > to
    ensures DecodeRuns(m, stride, i, index, true, acc) == Err(BitSetError.IndexOutOfBounds)
  {
  }

  /** Otherwise the decoding goes on from the next field with the run added and the bit flipped. */
  lemma {:induction false} DecodeRunsNext(m: set<nat>, stride: Stride, i: nat, index: int, bit: bool, acc: set<nat>,
                                          count: int, to: int, next: nat, acc': set<nat>)
    requires -Two31 <= index < Two31
    requires HasSetBitFrom(m, i) && count == Int32Of(Window(m, i)) && -Two31 <= count < Two31 && to == AddInt(index, count)
    requires next == if stride == FieldStride then i + 32 else NextClearBit(m, i + 1)
    requires bit ==> 0 <= index <= to
    requires acc' == if bit then acc + Range(index, to) else acc
    ensures DecodeRuns(m, stride, i, index, bit, acc) == DecodeRuns(m, stride, next, to, !bit, acc')
  {
  }

  /** With no set bit at or after the field position the decoding stops with the bits it has. */
  lemma {:induction false} DecodeRunsEnd(m: set<nat>, stride: Stride, i: nat, index: int, bit: bool, acc: set<nat>)
    requires -Two31 <= index < Two31 && !HasSetBitFrom(m, i)
    ensures DecodeRuns(m, stride, i, index, bit, acc) == Ok(acc)
  {
  }

  // ---------------------------------------------------------------------
  // The eight planes of a raster

  /**
   * Plane b of a row-major stream: bit b of every pixel, read as the raster's
   * byte does it, `& 0xFF`, i.e. modulo 256.
   */
  function PlaneOf(pixels: seq<int>, b: nat): (s: seq<bool>)
    ensures |s| == |pixels|
    ensures forall k :: 0 <= k < |pixels| ==> s[k] == Bit(pixels[k] % 256, b)
  {
    seq(|pixels|, k requires 0 <= k < |pixels| => Bit(pixels[k] % 256, b))
  }

  /** The bit sets of a list of `BitSet`s. */
  function MembersOf(planes: seq<BitSet>): (r: seq<set<nat>>)
    reads planes
    ensures |r| == |planes|
    ensures forall b :: 0 <= b < |planes| ==> r[b] == planes[b].members
  {
    if planes == [] then [] else MembersOf(planes[..|planes| - 1]) + [planes[|planes| - 1].members]
  }

  /** The first count planes of a gray stream, as bit sets. */
  function PlaneSets(pixels: seq<int>, count: nat): (r: seq<set<nat>>)
    ensures |r| == count
    ensures forall b :: 0 <= b < count ==> r[b] == Members(PlaneOf(pixels, b))
  {
    if count == 0 then [] else PlaneSets(pixels, count - 1) + [Members(PlaneOf(pixels, count - 1))]
  }

  /** What `compressBitPlanes` stores for the first count planes of a gray stream: the fields of each plane. */
  function StoredPlanes(pixels: seq<int>, count: nat): (r: seq<set<nat>>)
    ensures |r| == count
    ensures forall b :: 0 <= b < count ==> r[b] == Members(Stream(Fields(PlaneOf(pixels, b))))
  {
    seq(count, b requires 0 <= b < count => Members(Stream(Fields(PlaneOf(pixels, b)))))
  }

  /**
   * Pixel k rebuilt from decoded planes: `1 << b` ORed in for every plane b
   * that holds k, plane 0 first.
   */
  function PixelValue(planes: seq<set<nat>>, k: nat): (v: nat)
    ensures v < Pow2(|planes|)
  {
    if planes == [] then 0
    else PixelValue(planes[..|planes| - 1], k) + (if k in planes[|planes| - 1] then Pow2(|planes| - 1) else 0)
  }

  /** The n pixels rebuilt from decoded planes. */
  function Recombine(planes: seq<set<nat>>, n: nat): (r: seq<int>)
    ensures |r| == n
    ensures forall k :: 0 <= k < n ==> r[k] == PixelValue(planes, k)
  {
    seq(n, k requires 0 <= k < n => PixelValue(planes, k))
  }

  /**
   * Decoding the first count stored planes in order; a missing plane is the
   * `IndexOutOfBoundsException` of `List.get`, a malformed one that of `BitSet.set`.
   */
  function DecodedPlanes(encoded: seq<set<nat>>, count: nat): (r: Result<seq<set<nat>>, BitSetError>)
    ensures r.Ok? ==> |r.value| == count
  {
    if count == 0 then Ok([])
    else
      match DecodedPlanes(encoded, count - 1)
      case Err(e) => Err(e)
      case Ok(planes) =>
        if count - 1 >= |encoded| then Err(BitSetError.IndexOutOfBounds)
        else
          match Decode(encoded[count - 1])
          case Err(e) => Err(e)
          case Ok(plane) => Ok(planes + [plane])
  }

  /** What `decompressBitPlanes` computes: the eight planes decoded and recombined into n pixels. */
  function DecodePlanes(encoded: seq<set<nat>>, n: nat): Result<seq<int>, BitSetError>
  {
    match DecodedPlanes(encoded, BitDepth)
    case Err(e) => Err(e)
    case Ok(planes) => Ok(Recombine(planes, n))
  }

  /**
   * `extractBitPlanes`: eight fresh, distinct bit sets; set k of plane b holds
   * pixel k's bit b, for the row-major pixels of the raster.
   */
  method ExtractBitPlanes(img: seq<seq<int>>, width: int, height: int) returns (planes: seq<BitSet>)
    requires IsImage(img, width, height) && width * height < Two31
    ensures |planes| == BitDepth
    ensures forall b :: 0 <= b < BitDepth ==> fresh(planes[b])
    ensures forall a, b :: 0 <= a < b < BitDepth ==> planes[a] != planes[b]
    ensures forall b :: 0 <= b < BitDepth ==> planes[b].members == Members(PlaneOf(Flatten(img), b))
  {
    ghost var pixels := Flatten(img);
    FlattenLength(img, width, height);
    assert |pixels| < Two31;
    planes := NewPlanes();
    var start := 0;
    for y := 0 to height
      invariant start == y * width && start <= |pixels|
      invariant forall b :: 0 <= b < BitDepth ==> fresh(planes[b])
      invariant forall b :: 0 <= b < BitDepth ==> planes[b].members == PixelBits(pixels, b, start)
    {
      RowsInImage(y + 1, width, height);
      NextRow(y, width);
      ExtractRow(img, width, height, y, start, planes, pixels);
      start := start + width;
    }
    RowsInImage(height, width, height);
    forall b | 0 <= b < BitDepth
      ensures planes[b].members == Members(PlaneOf(pixels, b))
    {
      AllPixelBits(pixels, b);
    }
  }

  /** The first loop of `extractBitPlanes`: eight new, empty and distinct bit sets. */
  method NewPlanes() returns (planes: seq<BitSet>)
    ensures |planes| == BitDepth
    ensures forall b :: 0 <= b < BitDepth ==> fresh(planes[b]) && planes[b].members == {}
    ensures forall a, b :: 0 <= a < b < BitDepth ==> planes[a] != planes[b]
  {
    planes := [];
    for i := 0 to BitDepth
      invariant |planes| == i
      invariant forall b :: 0 <= b < i ==> fresh(planes[b]) && planes[b].members == {}
      invariant forall a, b :: 0 <= a < b < i ==> planes[a] != planes[b]
    {
      var plane := new BitSet();
      planes := planes + [plane];
    }
  }

  /** Once every pixel is marked, plane b holds exactly the pixels with bit b set. */
  lemma AllPixelBits(pixels: seq<int>, b: nat)
    ensures PixelBits(pixels, b, |pixels|) == Members(PlaneOf(pixels, b))
  {
    PixelBitsOfPlane(pixels, b, |pixels|);
    assert PlaneOf(pixels, b)[..|pixels|] == PlaneOf(pixels, b);
  }

  /** The `for x` loop of `extractBitPlanes` for row y, whose pixels are pixels start .. start + width - 1 of the raster. */
  method ExtractRow(img: seq<seq<int>>, width: int, height: int, y: int, start: nat, planes: seq<BitSet>, ghost pixels: seq<int>)
    requires IsImage(img, width, height) && 0 <= y < height && pixels == Flatten(img)
    requires start == y * width && start + width <= |pixels| < Two31
    requires |planes| == BitDepth && forall a, b :: 0 <= a < b < BitDepth ==> planes[a] != planes[b]
    requires forall b :: 0 <= b < BitDepth ==> planes[b].members == PixelBits(pixels, b, start)
    modifies set b | 0 <= b < BitDepth :: planes[b]
    ensures forall b :: 0 <= b < BitDepth ==> planes[b].members == PixelBits(pixels, b, start + width)
  {
    for x := 0 to width
      invariant forall b :: 0 <= b < BitDepth ==> planes[b].members == PixelBits(pixels, b, start + x)
    {
      FlattenAt(img, width, height, x, y);
      // The raster holds the gray level as a byte; `& 0xFF` reads it back modulo 256.
      var pixel := img[y][x] % 256;
      assert pixel == pixels[start + x] % 256;
      MarkPixel(planes, pixel, start + x);
    }
  }

  /** The bit loop of `extractBitPlanes` for one pixel: sets its index in every plane whose bit the pixel has. */
  method MarkPixel(planes: seq<BitSet>, pixel: nat, index: nat)
    requires |planes| == BitDepth && index < Two31
    requires forall a, b :: 0 <= a < b < BitDepth ==> planes[a] != planes[b]
    modifies set b | 0 <= b < BitDepth :: planes[b]
    ensures forall b :: 0 <= b < BitDepth ==> planes[b].members == old(planes[b].members) + (if Bit(pixel, b) then {index} else {})
  {
    for bit := 0 to BitDepth
      invariant forall b :: 0 <= b < bit ==> planes[b].members == old(planes[b].members) + (if Bit(pixel, b) then {index} else {})
      invariant forall b :: bit <= b < BitDepth ==> planes[b].members == old(planes[b].members)
    {
      if Bit(pixel, bit) {
        planes[bit].Set(index);
      }
    }
  }

  /** The indices below n whose pixel has bit b set, as `extractBitPlanes` sets them pixel by pixel. */
  ghost function PixelBits(pixels: seq<int>, b: nat, n: nat): set<nat>
    requires n <= |pixels|
  {
    if n == 0 then {} else PixelBits(pixels, b, n - 1) + (if Bit(pixels[n - 1] % 256, b) then {n - 1} else {})
  }

  lemma {:induction false} PixelBitsOfPlane(pixels: seq<int>, b: nat, n: nat)
    requires n <= |pixels|
    ensures PixelBits(pixels, b, n) == Members(PlaneOf(pixels, b)[..n])
  {
    if n > 0 {
      PixelBitsOfPlane(pixels, b, n - 1);
      MembersSnoc(PlaneOf(pixels, b), n - 1);
    }
  }

  /** One more bit of a plane adds its index when it is set. */
  lemma {:induction false} MembersSnoc(s: seq<bool>, n: nat)
    requires n < |s|
    ensures Members(s[..n + 1]) == Members(s[..n]) + (if s[n] then {n} else {})
  {
  }

  /**
   * `compressBitPlanes`: the eight planes of the raster, each encoded over
   * width * height bits; the exception of the first plane whose fields do not
   * fit below the `int` index 2^31.
   */
  method CompressBitPlanes(img: seq<seq<int>>, width: int, height: int) returns (r: Result<seq<BitSet>, BitSetError>)
    requires IsImage(img, width, height) && width * height < Two31
    ensures r.Ok? ==> fresh(r.value)
    ensures r.Ok? ==> CompressPlanes(Flatten(img)) == Ok(MembersOf(r.value))
    ensures r.Err? ==> CompressPlanes(Flatten(img)) == Err(r.error)
  {
    var planes := ExtractBitPlanes(img, width, height);
    FlattenLength(img, width, height);
    r := EncodePlanes(planes, Flatten(img), width * height);
  }

  /** The loop of `compressBitPlanes`: encodes each extracted plane over size bits, in plane order. */
  method EncodePlanes(planes: seq<BitSet>, ghost pixels: seq<int>, size: nat) returns (r: Result<seq<BitSet>, BitSetError>)
    requires size == |pixels| < Two31
    requires forall b :: 0 <= b < |planes| ==> planes[b].members == Members(PlaneOf(pixels, b))
    ensures r.Ok? <==> PlanesFit(pixels, |planes|)
    ensures r.Err? ==> r.error == BitSetError.IndexOutOfBounds
    ensures r.Ok? ==> fresh(r.value)
    ensures r.Ok? ==> MembersOf(r.value) == StoredPlanes(pixels, |planes|)
  {
    var encoded := [];
    for bit := 0 to |planes|
      invariant |encoded| == bit
      invariant PlanesFit(pixels, bit)
      invariant fresh(encoded)
      invariant MembersOf(encoded) == StoredPlanes(pixels, bit)
    {
      var encodedPlane := EncodePlane(planes[bit], pixels, bit, size);
      if encodedPlane.Err? {
        PlaneDoesNotFit(pixels, bit, |planes|);
        return Err(encodedPlane.error);
      }
      PlanesFitSnoc(pixels, bit);
      assert MembersOf(encoded) == StoredPlanes(pixels, bit);
      MembersOfSnoc(encoded, encodedPlane.value);
      StoredPlanesSnoc(pixels, bit);
      encoded := encoded + [encodedPlane.value];
    }
    r := Ok(encoded);
  }

  /** One pass of the loop of `compressBitPlanes`: plane b, encoded over the stream's length. */
  method EncodePlane(plane: BitSet, ghost pixels: seq<int>, b: nat, size: nat) returns (r: Result<BitSet, BitSetError>)
    requires size == |pixels| < Two31 && plane.members == Members(PlaneOf(pixels, b))
    ensures r.Ok? <==> PlaneFits(pixels, b)
    ensures r.Err? ==> r.error == BitSetError.IndexOutOfBounds
    ensures r.Ok? ==> fresh(r.value) && r.value.members == Members(Stream(Fields(PlaneOf(pixels, b))))
  {
    PlaneBitsOfPlane(plane.members, pixels, b);
    r := EncodeBitSet(plane, size);
  }

  /** Plane b of a stream can be encoded: its fields all start below the `int` index 2^31. */
  predicate PlaneFits(pixels: seq<int>, b: nat)
  {
    |Fields(PlaneOf(pixels, b))| <= MaxFields
  }

  /** The first count planes of a stream can be encoded. */
  predicate PlanesFit(pixels: seq<int>, count: nat)
  {
    forall b :: 0 <= b < count ==> PlaneFits(pixels, b)
  }

  /** One more plane that fits extends the planes that fit. */
  lemma PlanesFitSnoc(pixels: seq<int>, count: nat)
    requires PlanesFit(pixels, count) && PlaneFits(pixels, count)
    ensures PlanesFit(pixels, count + 1)
  {
  }

  /** A plane that does not fit keeps every longer list of planes from fitting. */
  lemma PlaneDoesNotFit(pixels: seq<int>, b: nat, count: nat)
    requires b < count && !PlaneFits(pixels, b)
    ensures !PlanesFit(pixels, count)
  {
  }

  /**
   * What `compressBitPlanes` gives for a stream: the stored planes when every
   * plane fits, otherwise the exception of `BitSet.set`.
   */
  function CompressPlanes(pixels: seq<int>): Result<seq<set<nat>>, BitSetError>
  {
    if PlanesFit(pixels, BitDepth) then Ok(StoredPlanes(pixels, BitDepth)) else Err(BitSetError.IndexOutOfBounds)
  }

  /** A stream of fewer than MaxFields pixels always fits: a plane of n bits has at most n + 1 fields. */
  lemma {:induction false} ShortStreamsFit(pixels: seq<int>)
    requires |pixels| < MaxFields
    ensures CompressPlanes(pixels).Ok?
  {
    forall b | 0 <= b < BitDepth
      ensures PlaneFits(pixels, b)
    {
      FieldsAtMostSize(PlaneOf(pixels, b));
    }
  }

  /**
   * A stream of MaxFields or more pixels alternating 1, 0, 1, ... makes plane 0
   * change at every bit: it has one field more than bits, too many to encode.
   * An 8192 x 8192 raster of such pixels is the smallest square one.
   */
  lemma {:induction false} AlternatingStreamFails(pixels: seq<int>)
    requires |pixels| >= MaxFields && pixels[0] == 1
    requires forall k :: 0 < k < |pixels| ==> pixels[k] == 1 - pixels[k - 1]
    ensures CompressPlanes(pixels) == Err(BitSetError.IndexOutOfBounds)
  {
    var plane := PlaneOf(pixels, 0);
    forall k | 0 < k < |plane|
      ensures plane[k] != plane[k - 1]
    {
      AlternatingBit(pixels, k);
      AlternatingBit(pixels, k - 1);
    }
    AlternatingBit(pixels, 0);
    AlternatingFields(plane);
    assert !PlaneFits(pixels, 0);
  }

  /** Every pixel of an alternating stream is 0 or 1, and its bit 0 is set exactly when it is 1. */
  lemma {:induction false} AlternatingBit(pixels: seq<int>, k: nat)
    requires k < |pixels| && pixels[0] == 1
    requires forall j :: 0 < j < |pixels| ==> pixels[j] == 1 - pixels[j - 1]
    ensures pixels[k] == 0 || pixels[k] == 1
    ensures PlaneOf(pixels, 0)[k] == (pixels[k] == 1)
  {
    if k > 0 {
      AlternatingBit(pixels, k - 1);
    }
    assert Bit(1, 0) && !Bit(0, 0);
  }

  /** The members of plane b, read back over the stream's length, give plane b. */
  lemma PlaneBitsOfPlane(m: set<nat>, pixels: seq<int>, b: nat)
    requires m == Members(PlaneOf(pixels, b))
    ensures PlaneBits(m, |pixels|) == PlaneOf(pixels, b)
  {
    PlaneBitsOfMembers(PlaneOf(pixels, b));
  }

  lemma StoredPlanesSnoc(pixels: seq<int>, count: nat)
    ensures StoredPlanes(pixels, count + 1) == StoredPlanes(pixels, count) + [Members(Stream(Fields(PlaneOf(pixels, count))))]
  {
  }

  /** Appending a bit set appends its members. */
  lemma MembersOfSnoc(planes: seq<BitSet>, p: BitSet)
    ensures MembersOf(planes + [p]) == MembersOf(planes) + [p.members]
  {
    assert (planes + [p])[..|planes|] == planes;
  }

  /** Reading back the first |s| bits of the set bits of s gives s. */
  lemma {:induction false} PlaneBitsOfMembers(s: seq<bool>)
    ensures PlaneBits(Members(s), |s|) == s
  {
  }

  /**
   * `decompressBitPlanes`: decodes the eight stored planes in order (with the
   * corrected stride) and ORs `1 << bit` into every pixel whose bit is set in
   * plane bit, giving the width * height pixels in row-major order.
   */
  method DecompressBitPlanes(encoded: seq<BitSet>, width: int, height: int) returns (r: Result<seq<int>, BitSetError>)
    requires width >= 1 && height >= 1
    ensures r == DecodePlanes(MembersOf(encoded), width * height)
  {
    ghost var stored := MembersOf(encoded);
    RowsInImage(height, width, height);
    var n := width * height;
    var pixels := new int[n](_ => 0);
    ghost var planes: seq<set<nat>> := [];
    for bit := 0 to BitDepth
      invariant DecodedPlanes(stored, bit) == Ok(planes)
      invariant |planes| == bit
      invariant forall k :: 0 <= k < n ==> pixels[k] == PixelValue(planes, k)
    {
      if bit >= |encoded| {
        PlaneFails(stored, bit, planes, n, BitSetError.IndexOutOfBounds);
        return Err(BitSetError.IndexOutOfBounds);
      }
      var result := DecodeBitSet(encoded[bit], FieldStride);
      if result.Err? {
        PlaneFails(stored, bit, planes, n, result.error);
        return Err(result.error);
      }
      var decodedPlane := result.value;
      PlaneDecoded(stored, bit, planes, decodedPlane.members);
      MergePlane(pixels, decodedPlane, bit, width, height, planes);
      planes := planes + [decodedPlane.members];
    }
    assert pixels[..] == Recombine(planes, n);
    r := Ok(pixels[..]);
  }

  /**
   * The pixel loop of `decompressBitPlanes` for one decoded plane: ORs
   * `1 << bit` into pixel y * width + x when the plane has that bit set.
   */
  method MergePlane(pixels: array<int>, plane: BitSet, bit: nat, width: int, height: int, ghost planes: seq<set<nat>>)
    requires width >= 1 && height >= 1 && pixels.Length == width * height
    requires |planes| == bit < BitDepth
    requires forall k :: 0 <= k < pixels.Length ==> pixels[k] == PixelValue(planes, k)
    modifies pixels
    ensures forall k :: 0 <= k < pixels.Length ==> pixels[k] == PixelValue(planes + [plane.members], k)
  {
    ghost var next := planes + [plane.members];
    ghost var n := pixels.Length;
    var start := 0;
    for y := 0 to height
      invariant start == y * width && start <= n
      invariant forall k :: 0 <= k < start ==> pixels[k] == PixelValue(next, k)
      invariant forall k :: start <= k < n ==> pixels[k] == PixelValue(planes, k)
    {
      PositionInImage(width - 1, y, width, height);
      MergeRow(pixels, plane, bit, start, width, planes);
      NextRow(y, width);
      start := start + width;
    }
  }

  /** The `for x` loop of row y, whose pixels start at index start = y * width. */
  method MergeRow(pixels: array<int>, plane: BitSet, bit: nat, start: nat, width: nat, ghost planes: seq<set<nat>>)
    requires start + width <= pixels.Length && |planes| == bit < BitDepth
    requires forall k :: 0 <= k < start ==> pixels[k] == PixelValue(planes + [plane.members], k)
    requires forall k :: start <= k < pixels.Length ==> pixels[k] == PixelValue(planes, k)
    modifies pixels
    ensures forall k :: 0 <= k < start + width ==> pixels[k] == PixelValue(planes + [plane.members], k)
    ensures forall k :: start + width <= k < pixels.Length ==> pixels[k] == PixelValue(planes, k)
  {
    ghost var next := planes + [plane.members];
    for x := 0 to width
      invariant forall k :: 0 <= k < start + x ==> pixels[k] == PixelValue(next, k)
      invariant forall k :: start + x <= k < pixels.Length ==> pixels[k] == PixelValue(planes, k)
    {
      var k := start + x;
      PixelValueSnoc(planes, plane.members, k);
      if plane.Get(k) {
        OrIsAdd(planes, k);
        pixels[k] := pixels[k] + ShiftedOne(bit);
      }
    }
  }

  /** One more plane adds its bit to the pixels it holds. */
  lemma {:induction false} PixelValueSnoc(planes: seq<set<nat>>, plane: set<nat>, k: nat)
    ensures PixelValue(planes + [plane], k) == PixelValue(planes, k) + (if k in plane then Pow2(|planes|) else 0)
  {
    assert (planes + [plane])[..|planes|] == planes;
  }

  /** Before plane |planes| is merged that bit of the pixel is clear, so ORing it in adds it. */
  lemma {:induction false} OrIsAdd(planes: seq<set<nat>>, k: nat)
    ensures !Bit(PixelValue(planes, k), |planes|)
  {
    HighBitsClear(PixelValue(planes, k), |planes|, |planes|);
  }

  /** A plane that is missing or does not decode makes the whole decoding fail with its error. */
  lemma {:induction false} PlaneFails(encoded: seq<set<nat>>, bit: nat, planes: seq<set<nat>>, n: nat, e: BitSetError)
    requires bit < BitDepth && DecodedPlanes(encoded, bit) == Ok(planes)
    requires bit >= |encoded| || Decode(encoded[bit]) == Err(e)
    requires bit >= |encoded| ==> e == BitSetError.IndexOutOfBounds
    ensures DecodePlanes(encoded, n) == Err(e)
  {
    DecodedPlanesStayFailed(encoded, bit + 1, BitDepth);
  }

  /** A plane that decodes is appended to the planes decoded so far. */
  lemma {:induction false} PlaneDecoded(encoded: seq<set<nat>>, bit: nat, planes: seq<set<nat>>, plane: set<nat>)
    requires DecodedPlanes(encoded, bit) == Ok(planes)
    requires bit < |encoded| && Decode(encoded[bit]) == Ok(plane)
    ensures DecodedPlanes(encoded, bit + 1) == Ok(planes + [plane])
  {
  }

  /** Once decoding the first planes fails, decoding more planes fails the same way. */
  lemma {:induction false} DecodedPlanesStayFailed(encoded: seq<set<nat>>, count: nat, total: nat)
    requires count <= total && DecodedPlanes(encoded, count).Err?
    ensures DecodedPlanes(encoded, total) == DecodedPlanes(encoded, count)
  {
    if count < total {
      DecodedPlanesStayFailed(encoded, count, total - 1);
    }
  }

  /** The planes of a stream rebuild each pixel's low bits (of its byte). */
  lemma {:induction false} PixelValueOfPlanes(pixels: seq<int>, count: nat, k: nat)
    requires k < |pixels|
    ensures PixelValue(PlaneSets(pixels, count), k) == BitsValue(LowBits(pixels[k] % 256, count))
  {
    if count > 0 {
      var v := pixels[k] % 256;
      var init := PlaneSets(pixels, count - 1);
      var plane := Members(PlaneOf(pixels, count - 1));
      PixelValueOfPlanes(pixels, count - 1, k);
      PixelValueSnoc(init, plane, k);
      InPlane(pixels, count - 1, k);
      LowBitsSnoc(v, count - 1);
      BitsValueSnoc(LowBits(v, count - 1), Bit(v, count - 1));
    }
  }

  /** Pixel k is in plane b exactly when bit b of its byte is set. */
  lemma {:induction false} InPlane(pixels: seq<int>, b: nat, k: nat)
    requires k < |pixels|
    ensures k in Members(PlaneOf(pixels, b)) <==> Bit(pixels[k] % 256, b)
  {
  }

  /** Every stored plane of a gray stream decodes to that plane. */
  lemma {:induction false} DecodedPlanesOfPixels(pixels: seq<int>, count: nat)
    requires |pixels| < Two31 && count <= BitDepth
    ensures DecodedPlanes(StoredPlanes(pixels, BitDepth), count) == Ok(PlaneSets(pixels, count))
  {
    if count > 0 {
      var stored := StoredPlanes(pixels, BitDepth);
      DecodedPlanesOfPixels(pixels, count - 1);
      var plane := PlaneOf(pixels, count - 1);
      assert stored[count - 1] == Members(Stream(Fields(plane)));
      PlaneRoundTrip(plane);
      assert PlaneSets(pixels, count) == PlaneSets(pixels, count - 1) + [Members(plane)];
    }
  }

  /**
   * Recombining the decoded planes of a gray stream gives back every pixel:
   * the stored planes decode (with the corrected stride) to the planes, and
   * pixel k's bits in the eight planes are its 8 low bits.
   */
  lemma {:induction false} BitPlaneRoundTrip(pixels: seq<int>)
    requires IsGrayStream(pixels) && |pixels| < Two31
    ensures DecodePlanes(StoredPlanes(pixels, BitDepth), |pixels|) == Ok(pixels)
  {
    DecodedPlanesOfPixels(pixels, BitDepth);
    var planes := PlaneSets(pixels, BitDepth);
    forall k | 0 <= k < |pixels|
      ensures Recombine(planes, |pixels|)[k] == pixels[k]
    {
      RecombinedPixel(pixels, k);
    }
    assert Recombine(planes, |pixels|) == pixels;
  }

  /** A gray pixel is the value of its bits in the eight planes. */
  lemma {:induction false} RecombinedPixel(pixels: seq<int>, k: nat)
    requires k < |pixels| && IsGray(pixels[k])
    ensures PixelValue(PlaneSets(pixels, BitDepth), k) == pixels[k]
  {
    Pow2Eight();
    PixelBelowPow2(pixels, BitDepth, k);
  }

  /** Reducing a gray value modulo 256 keeps it. */
  lemma GrayMod(v: int)
    requires 0 <= v < 256
    ensures v % 256 == v
  {
  }

  /** A pixel below 2^n, and below 256, is the value of its bits in n planes. */
  lemma {:induction false} PixelBelowPow2(pixels: seq<int>, n: nat, k: nat)
    requires k < |pixels| && 0 <= pixels[k] < Pow2(n) <= 256
    ensures PixelValue(PlaneSets(pixels, n), k) == pixels[k]
  {
    var v := pixels[k];
    PixelValueOfPlanes(pixels, n, k);
    GrayMod(v);
    LowBitsValue(v, n);
  }

  /**
   * Compressing a raster by bit planes and decompressing it with the same
   * dimensions gives back the raster's row-major pixels, whenever compressing
   * succeeds; and it succeeds for every raster of fewer than MaxFields pixels.
   */
  lemma {:induction false} RasterRoundTrip(img: seq<seq<int>>, width: int, height: int)
    requires IsImage(img, width, height) && width * height < Two31
    ensures width * height == |Flatten(img)|
    ensures DecodePlanes(StoredPlanes(Flatten(img), BitDepth), |Flatten(img)|) == Ok(Flatten(img))
    ensures CompressPlanes(Flatten(img)).Ok? ==> DecodePlanes(CompressPlanes(Flatten(img)).value, width * height) == Ok(Flatten(img))
    ensures width * height < MaxFields ==> CompressPlanes(Flatten(img)).Ok?
  {
    FlattenLength(img, width, height);
    FlattenGray(img, width, height);
    BitPlaneRoundTrip(Flatten(img));
    if width * height < MaxFields {
      ShortStreamsFit(Flatten(img));
    }
  }
}
