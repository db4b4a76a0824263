/**
 * The bit-plane variant of run-length coding, stated on values. A plane of
 * `size` bits is written as the lengths of its alternating runs, the first run
 * being of clear bits (so it is 0 when the plane starts with a set bit); each
 * length is stored as a 32-bit little-endian field of a `BitSet`, one field
 * after the other. Decoding reads fields back and replays them as runs.
 */
module BitPlaneFields {
  import opened Bits
  import opened BitSets
  import opened Results
  import opened JavaInt

  lemma Pow2Of31And32()
    ensures Pow2(31) == Two31 && Pow2(32) == Two32
  {
    Pow2Plus8(0);
    assert Pow2(8) == 256;
    Pow2Plus8(8);
    assert Pow2(16) == 65536;
    Pow2Plus8(16);
    assert Pow2(24) == 16777216;
    Pow2Plus8(24);
    assert Pow2(32) == 2 * Pow2(31);
  }

  lemma Pow2Plus8(n: nat)
    ensures Pow2(n + 8) == 256 * Pow2(n)
  {
    assert Pow2(n + 8) == 2 * Pow2(n + 7) == 4 * Pow2(n + 6) == 8 * Pow2(n + 5) == 16 * Pow2(n + 4);
    assert Pow2(n + 4) == 2 * Pow2(n + 3) == 4 * Pow2(n + 2) == 8 * Pow2(n + 1) == 16 * Pow2(n);
  }

  /** The 32 bits of a Java `int`, as an unsigned value (two's complement). */
  function Unsigned32(v: int): (r: nat)
    requires -Two31 <= v < Two31
    ensures r < Two32
    ensures v >= 0 ==> r == v
  {
    if v < 0 then v + Two32 else v
  }

  /**
   * The `int` that `readCountFromBitSet` assembles from 32 bits, bit i
   * contributing `1 << i`; `1 << 31` is the sign bit, worth -2^31.
   */
  function Int32Of(bits: seq<bool>): int
    requires |bits| == 32
  {
    BitsValue(bits) - (if bits[31] then Two32 else 0)
  }

  /** The 32 bits of a bit set starting at index start. */
  function Window(m: set<nat>, start: nat): (w: seq<bool>)
    ensures |w| == 32
    ensures forall j :: 0 <= j < 32 ==> w[j] == (start + j in m)
  {
    seq(32, j => start + j in m)
  }

  /** The set bits of a bit string. */
  function Members(s: seq<bool>): set<nat>
  {
    set k: nat | k < |s| && s[k]
  }

  /** The first size bits of a bit set, as a bit string. */
  function PlaneBits(m: set<nat>, size: nat): (s: seq<bool>)
    ensures |s| == size
    ensures forall k :: 0 <= k < size ==> s[k] == (k in m)
  {
    seq(size, k => k in m)
  }

  /** n copies of the bit b. */
  function Run(b: bool, n: nat): (r: seq<bool>)
    ensures |r| == n
    ensures forall k :: 0 <= k < n ==> r[k] == b
  {
    seq(n, _ => b)
  }

  /** Whether k is odd; field k of a replay is a run of set bits exactly when it is. */
  predicate Odd(k: nat)
  {
    if k == 0 then false else !Odd(k - 1)
  }

  /** The bit of the run being counted: the last bit seen, `false` before any. */
  function LastBit(plane: seq<bool>): bool
  {
    if |plane| == 0 then false else plane[|plane| - 1]
  }

  /**
   * The run lengths `encodeBitSet` writes for a plane: the lengths written so
   * far followed by the pending count. A repeated bit adds one to the pending
   * count; a changed bit closes it and starts a count of 1.
   */
  function Fields(plane: seq<bool>): (f: seq<nat>)
    ensures |f| >= 1
  {
    if |plane| == 0 then [0]
    else
      var f := Fields(plane[..|plane| - 1]);
      if plane[|plane| - 1] == LastBit(plane[..|plane| - 1]) then f[..|f| - 1] + [f[|f| - 1] + 1]
      else f + [1]
  }

  function Sum(f: seq<nat>): nat
  {
    if |f| == 0 then 0 else Sum(f[..|f| - 1]) + f[|f| - 1]
  }

  /** Replaying run lengths from a clear bit: field k is a run of (k odd) bits. */
  function Replay(f: seq<nat>): seq<bool>
  {
    if |f| == 0 then [] else Replay(f[..|f| - 1]) + Run(Odd(|f| - 1), f[|f| - 1])
  }

  /** The bits the fields occupy: each value's 32 low bits, one field after the other. */
  function Stream(f: seq<nat>): seq<bool>
  {
    if |f| == 0 then [] else Stream(f[..|f| - 1]) + LowBits(f[|f| - 1], 32)
  }

  /** How a decoder moves from one field to the next. */
  datatype Stride = FieldStride | NextClearStride

  /** The `IndexOutOfBoundsException` of `BitSet.set`: a negative index, or a range with from > to. */
  datatype BitSetError = IndexOutOfBounds

  /**
   * The loop of `decodeBitSet` from field position i, with the decoded index,
   * the bit of the current run and the bits set so far: while some bit at or
   * after i is set, read the 32-bit count at i, set the run if it is a run of
   * set bits, add the count to the index (as `int` addition) and flip the bit.
   */
  function DecodeRuns(m: set<nat>, stride: Stride, i: nat, index: int, bit: bool, acc: set<nat>): Result<set<nat>, BitSetError>
    requires -Two31 <= index < Two31
    decreases Bound(m) - i
  {
    if !HasSetBitFrom(m, i) then Ok(acc)
    else
      var count := Int32Of(Window(m, i));
      Int32Range(Window(m, i));
      var to := AddInt(index, count);
      if bit && (index < 0 || to < 0 || index > to) then Err(IndexOutOfBounds)
      else
        var next := if stride == FieldStride then i + 32 else NextClearBit(m, i + 1);
        DecodeRuns(m, stride, next, to, !bit, if bit then acc + Range(index, to) else acc)
  }

  /** `decodeBitSet` as written: the next field starts at `nextClearBit(i + 1)`. */
  function DecodeAsWritten(m: set<nat>): Result<set<nat>, BitSetError>
  {
    DecodeRuns(m, NextClearStride, 0, 0, false, {})
  }

  /** `decodeBitSet` with the stride of the writer, one field of 32 bits. */
  function Decode(m: set<nat>): Result<set<nat>, BitSetError>
  {
    DecodeRuns(m, FieldStride, 0, 0, false, {})
  }

  // ---------------------------------------------------------------------
  // A field written and read back

  /** A value in `int` range has bit 31 of its 32 bits clear exactly when it is not negative. */
  lemma {:induction false} Int32Range(bits: seq<bool>)
    requires |bits| == 32
    ensures -Two31 <= Int32Of(bits) < Two31
  {
    Pow2Of31And32();
    assert bits == bits[..31] + [bits[31]];
    BitsValueSnoc(bits[..31], bits[31]);
  }

  /**
   * `readCountFromBitSet` after `writeCountToBitSet`: the 32 bits of any `int`
   * read back as that `int`.
   */
  lemma {:induction false} FieldRoundTrip(c: int)
    requires -Two31 <= c < Two31
    ensures Int32Of(LowBits(Unsigned32(c), 32)) == c
  {
    var u := Unsigned32(c);
    var bits := LowBits(u, 32);
    Pow2Of31And32();
    LowBitsValue(u, 32);
    assert bits == bits[..31] + [bits[31]];
    BitsValueSnoc(bits[..31], bits[31]);
    if c >= 0 {
      HighBitsClear(c, 31, 31);
    }
  }

  // ---------------------------------------------------------------------
  // The run lengths of a plane

  /** One more bit either lengthens the pending run or starts a run of 1. */
  lemma {:induction false} FieldsSnoc(q: seq<bool>, b: bool)
    ensures Fields(q + [b]) ==
      var f := Fields(q);
      if b == LastBit(q) then f[..|f| - 1] + [f[|f| - 1] + 1] else f + [1]
    ensures LastBit(q + [b]) == b
  {
    assert (q + [b])[..|q|] == q;
  }

  /** Every field after the first is at least 1. */
  predicate LaterFieldsPositive(f: seq<nat>)
  {
    |f| <= 1 || (LaterFieldsPositive(f[..|f| - 1]) && f[|f| - 1] >= 1)
  }

  /** The fields after the first are run lengths of at least 1. */
  lemma {:induction false} FieldsPositive(plane: seq<bool>)
    ensures LaterFieldsPositive(Fields(plane))
  {
    if |plane| > 0 {
      var q := plane[..|plane| - 1];
      var b := plane[|plane| - 1];
      assert plane == q + [b];
      FieldsPositive(q);
      FieldsSnoc(q, b);
      var f := Fields(q);
      if b == LastBit(q) {
        var g := f[..|f| - 1] + [f[|f| - 1] + 1];
        assert g[..|g| - 1] == f[..|f| - 1];
        if |f| > 1 {
          assert LaterFieldsPositive(f[..|f| - 1]);
        }
      } else {
        assert (f + [1])[..|f|] == f;
      }
    }
  }

  /** The recursive statement above, index by index. */
  lemma {:induction false} LaterFieldsPositiveAt(f: seq<nat>, k: nat)
    requires LaterFieldsPositive(f) && 1 <= k < |f|
    ensures f[k] >= 1
  {
    if k < |f| - 1 {
      LaterFieldsPositiveAt(f[..|f| - 1], k);
    }
  }

  /** Once the plane is non-empty the pending count, the last field, is at least 1. */
  lemma {:induction false} FieldsLast(plane: seq<bool>)
    requires |plane| >= 1
    ensures Fields(plane)[|Fields(plane)| - 1] >= 1
  {
    var q := plane[..|plane| - 1];
    var b := plane[|plane| - 1];
    assert plane == q + [b];
    FieldsSnoc(q, b);
  }

  /** The bit of the pending run is the parity of the last field's position. */
  lemma {:induction false} FieldsParity(plane: seq<bool>)
    ensures LastBit(plane) == Odd(|Fields(plane)| - 1)
  {
    if |plane| > 0 {
      var q := plane[..|plane| - 1];
      var b := plane[|plane| - 1];
      FieldsParity(q);
      var f := Fields(q);
      assert LastBit(plane) == b;
      if b == LastBit(q) {
        assert |Fields(plane)| == |f|;
      } else {
        assert |Fields(plane)| == |f| + 1;
        assert Odd(|f|) == !Odd(|f| - 1);
      }
    }
  }

  /** The first field is 0 exactly when the plane starts with a set bit. */
  lemma {:induction false} FieldsFirst(plane: seq<bool>)
    requires |plane| >= 1
    ensures Fields(plane)[0] == 0 <==> plane[0]
  {
    var q := plane[..|plane| - 1];
    var b := plane[|plane| - 1];
    assert plane == q + [b];
    FieldsSnoc(q, b);
    if |q| > 0 {
      FieldsLast(q);
      FieldsFirst(q);
      assert q[0] == plane[0];
    }
  }

  /** The fields add up to the plane's size. */
  lemma {:induction false} FieldsSum(plane: seq<bool>)
    ensures Sum(Fields(plane)) == |plane|
  {
    if |plane| > 0 {
      var q := plane[..|plane| - 1];
      var f := Fields(q);
      FieldsSum(q);
      assert plane == q + [plane[|plane| - 1]];
      FieldsSnoc(q, plane[|plane| - 1]);
      if plane[|plane| - 1] == LastBit(q) {
        var g := f[..|f| - 1] + [f[|f| - 1] + 1];
        assert g[..|g| - 1] == f[..|f| - 1];
      } else {
        assert (f + [1])[..|f|] == f;
      }
    }
  }

  /** Replaying one more field appends its run, of the bit b its position gives. */
  lemma {:induction false} ReplaySnoc(f: seq<nat>, c: nat, b: bool)
    requires b == Odd(|f|)
    ensures Replay(f + [c]) == Replay(f) + Run(b, c)
  {
    assert (f + [c])[..|f|] == f;
  }

  /** Lengthening the last field by one appends one more bit b of its run. */
  lemma {:induction false} ReplayBump(f: seq<nat>, b: bool)
    requires |f| >= 1 && b == Odd(|f| - 1)
    ensures Replay(f[..|f| - 1] + [f[|f| - 1] + 1]) == Replay(f) + [b]
  {
    var n := |f|;
    var init, c := f[..n - 1], f[n - 1];
    ReplaySnoc(init, c + 1, b);
    ReplaySnoc(init, c, b);
    InitLast(f);
    RunLonger(b, c);
    AppendAssoc(Replay(init), Run(b, c), [b]);
  }

  lemma InitLast(f: seq<nat>)
    requires |f| >= 1
    ensures f[..|f| - 1] + [f[|f| - 1]] == f
  {
  }

  lemma RunLonger(b: bool, n: nat)
    ensures Run(b, n + 1) == Run(b, n) + [b]
  {
  }

  lemma AppendAssoc(s: seq<bool>, t: seq<bool>, u: seq<bool>)
    ensures s + (t + u) == (s + t) + u
  {
  }

  /** Replaying the written fields from a clear bit gives back the plane. */
  lemma {:induction false} ReplayFields(plane: seq<bool>)
    ensures Replay(Fields(plane)) == plane
  {
    if |plane| > 0 {
      var q := plane[..|plane| - 1];
      var b := plane[|plane| - 1];
      assert plane == q + [b];
      ReplayFields(q);
      FieldsParity(q);
      ReplayFieldsSnoc(q, b, Odd(|Fields(q)| - 1));
    }
  }

  /** The step of the proof above: one more bit, either lengthening the pending run or starting a new one. */
  lemma {:induction false} ReplayFieldsSnoc(q: seq<bool>, b: bool, last: bool)
    requires Replay(Fields(q)) == q && last == LastBit(q) && last == Odd(|Fields(q)| - 1)
    ensures Replay(Fields(q + [b])) == q + [b]
  {
    if b == last {
      ReplayFieldsBump(q, b);
    } else {
      ReplayFieldsNewRun(q, b);
    }
  }

  /** A repeated bit lengthens the pending run by one bit. */
  lemma {:induction false} ReplayFieldsBump(q: seq<bool>, b: bool)
    requires Replay(Fields(q)) == q && b == LastBit(q) && b == Odd(|Fields(q)| - 1)
    ensures Replay(Fields(q + [b])) == q + [b]
  {
    ReplayBump(Fields(q), b);
    FieldsSnoc(q, b);
  }

  /** A changed bit starts a run of one. */
  lemma {:induction false} ReplayFieldsNewRun(q: seq<bool>, b: bool)
    requires Replay(Fields(q)) == q && b != LastBit(q) && b != Odd(|Fields(q)| - 1)
    ensures Replay(Fields(q + [b])) == q + [b]
  {
    ReplayNewRun(Fields(q), b);
    FieldsSnoc(q, b);
  }

  /** A new run of one bit b, after a run of the other bit. */
  lemma {:induction false} ReplayNewRun(f: seq<nat>, b: bool)
    requires |f| >= 1 && b != Odd(|f| - 1)
    ensures Replay(f + [1]) == Replay(f) + [b]
  {
    assert Odd(|f|) == !Odd(|f| - 1);
    ReplaySnoc(f, 1, b);
    assert Run(b, 1) == [b];
  }

  lemma {:induction false} ReplayLength(f: seq<nat>)
    ensures |Replay(f)| == Sum(f)
  {
    if |f| > 0 {
      ReplayLength(f[..|f| - 1]);
    }
  }

  lemma {:induction false} SumPrefix(f: seq<nat>, k: nat)
    requires k <= |f|
    ensures Sum(f[..k]) <= Sum(f)
  {
    if k < |f| {
      assert f[..|f| - 1][..k] == f[..k];
      SumPrefix(f[..|f| - 1], k);
    } else {
      assert f[..k] == f;
    }
  }

  // ---------------------------------------------------------------------
  // The fields laid out in a bit set

  lemma {:induction false} StreamLength(f: seq<nat>)
    ensures |Stream(f)| == 32 * |f|
  {
    if |f| > 0 {
      StreamLength(f[..|f| - 1]);
    }
  }

  /** Bit j of field k sits at index 32 * k + j. */
  lemma {:induction false} StreamIndex(f: seq<nat>, k: nat, j: nat)
    requires k < |f| && j < 32
    ensures 32 * k + j < |Stream(f)|
    ensures Stream(f)[32 * k + j] == Bit(f[k], j)
  {
    var init := f[..|f| - 1];
    StreamLength(init);
    StreamLength(f);
    if k < |f| - 1 {
      StreamIndex(init, k, j);
    }
  }

  /** The window at field k of the written bits holds that field's 32 low bits. */
  lemma {:induction false} WindowOfStream(f: seq<nat>, k: nat)
    requires k < |f|
    ensures Window(Members(Stream(f)), 32 * k) == LowBits(f[k], 32)
  {
    var w, low := Window(Members(Stream(f)), 32 * k), LowBits(f[k], 32);
    forall j | 0 <= j < 32
      ensures w[j] == low[j]
    {
      StreamIndex(f, k, j);
    }
    SameBits(w, low);
  }

  lemma SameBits(a: seq<bool>, b: seq<bool>)
    requires |a| == |b| && forall j :: 0 <= j < |a| ==> a[j] == b[j]
    ensures a == b
  {
  }

  /** The indices start + j, j < n, for which bit j of v is set. */
  function FieldBits(v: nat, start: nat, n: nat): (r: set<nat>)
    ensures forall k: nat :: k in r <==> (start <= k < start + n && Bit(v, k - start))
  {
    if n == 0 then {} else FieldBits(v, start, n - 1) + (if Bit(v, n - 1) then {start + n - 1} else {})
  }

  /**
   * The indices `start + j` for j < n, with Java `int` addition, at which bit j
   * of v is set; an index that wraps below 0 is not a bit of the set.
   */
  function IntFieldBits(v: nat, start: int, n: nat): set<nat>
    requires -Two31 <= start < Two31 && n <= 32
  {
    if n == 0 then {}
    else
      var k := AddInt(start, n - 1);
      IntFieldBits(v, start, n - 1) + (if Bit(v, n - 1) && k >= 0 then {k as nat} else {})
  }

  /** A field that ends at or below 2^31 does not wrap: its `int` indices are its plain ones. */
  lemma {:induction false} IntFieldBitsInRange(v: nat, start: nat, n: nat)
    requires start + 32 <= Two31 && n <= 32
    ensures IntFieldBits(v, start, n) == FieldBits(v, start, n)
  {
    if n > 0 {
      IntFieldBitsInRange(v, start, n - 1);
    }
  }

  /**
   * The number of 32-bit fields that fit below bit 2^31: field MaxFields would
   * start at 32 * 2^26 = 2^31, which a Java `int` index wraps to -2^31.
   */
  const MaxFields: nat := 0x400_0000

  lemma MaxFieldsSpan()
    ensures 32 * MaxFields == Two31
  {
  }

  /**
   * The `int` index at which `encodeBitSet` writes field k: 32 * k, except for
   * field MaxFields, whose index has wrapped to -2^31.
   */
  function FieldIndex(k: nat): int
    requires k <= MaxFields
  {
    if k < MaxFields then 32 * k else -Two31
  }

  /** FieldIndex is the Java `int` value of 32 * k. */
  lemma FieldIndexWraps(k: nat)
    requires k <= MaxFields
    ensures FieldIndex(k) == Wrap32(32 * k)
  {
    if k == MaxFields {
      assert (32 * k + Two31) % Two32 == 0;
    }
  }

  /** One more bit adds at most one field. */
  lemma {:induction false} FieldsGrow(q: seq<bool>, b: bool)
    ensures |Fields(q)| <= |Fields(q + [b])| <= |Fields(q)| + 1
  {
    FieldsSnoc(q, b);
  }

  /** The fields of a prefix are no more than those of the whole plane. */
  lemma {:induction false} FieldsPrefixLength(plane: seq<bool>, i: nat)
    requires i <= |plane|
    ensures |Fields(plane[..i])| <= |Fields(plane)|
    decreases |plane| - i
  {
    if i == |plane| {
      assert plane[..i] == plane;
    } else {
      FieldsPrefixLength(plane, i + 1);
      assert plane[..i + 1] == plane[..i] + [plane[i]];
      FieldsGrow(plane[..i], plane[i]);
    }
  }

  /** A plane of n bits has at most n + 1 fields: the first run and one per change of bit. */
  lemma {:induction false} FieldsAtMostSize(plane: seq<bool>)
    ensures |Fields(plane)| <= |plane| + 1
  {
    if |plane| > 0 {
      var q := plane[..|plane| - 1];
      FieldsAtMostSize(q);
      assert plane == q + [plane[|plane| - 1]];
      FieldsGrow(q, plane[|plane| - 1]);
    }
  }

  /**
   * A plane that starts with a set bit and changes at every bit has the most
   * fields: n + 1, a first field of 0 and then one field of 1 per bit.
   */
  lemma {:induction false} AlternatingFields(plane: seq<bool>)
    requires |plane| > 0 ==> plane[0]
    requires forall k :: 0 < k < |plane| ==> plane[k] != plane[k - 1]
    ensures |Fields(plane)| == |plane| + 1
  {
    if |plane| > 0 {
      var n := |plane|;
      var q := plane[..n - 1];
      var b := plane[n - 1];
      assert forall k :: 0 < k < |q| ==> q[k] != q[k - 1];
      AlternatingFields(q);
      assert plane == q + [b];
      FieldsSnoc(q, b);
      assert b != LastBit(q);
    }
  }

  /** Appending a field sets exactly that field's bits, 32 * |f| onwards. */
  lemma {:induction false} MembersOfStreamSnoc(f: seq<nat>, c: nat)
    ensures Members(Stream(f + [c])) == Members(Stream(f)) + FieldBits(c, 32 * |f|, 32)
  {
    assert (f + [c])[..|f|] == f;
    StreamLength(f);
  }

  /** No bit is set at or after the end of the fields. */
  lemma {:induction false} NoBitsAfterStream(f: seq<nat>)
    ensures !HasSetBitFrom(Members(Stream(f)), 32 * |f|)
  {
    StreamLength(f);
  }

  /** When the last field is not 0, some bit is set at or after every field position. */
  lemma {:induction false} SetBitInLastField(f: seq<nat>, k: nat)
    requires k < |f| && 1 <= f[|f| - 1] < Two31
    ensures HasSetBitFrom(Members(Stream(f)), 32 * k)
  {
    var last := |f| - 1;
    var bits := LowBits(f[last], 32);
    if forall j :: 0 <= j < 32 ==> !bits[j] {
      BitsValueZero(bits);
      Pow2Of31And32();
      LowBitsValue(f[last], 32);
      assert false;
    }
    var j :| 0 <= j < 32 && bits[j];
    StreamIndex(f, last, j);
    assert 32 * last + j in Members(Stream(f));
  }

  // ---------------------------------------------------------------------
  // Decoding the written fields

  /** Replaying one more field adds that run's set bits. */
  lemma {:induction false} MembersOfReplaySnoc(f: seq<nat>, c: nat)
    ensures Members(Replay(f + [c])) == Members(Replay(f)) + (if Odd(|f|) then Range(Sum(f), Sum(f) + c) else {})
  {
    ReplaySnoc(f, c, Odd(|f|));
    ReplayLength(f);
  }

  /**
   * Reading fields at a stride of 32 from field k on, with the index, bit and
   * decoded bits that replaying the first k fields leaves, decodes every field.
   */
  lemma {:induction false} DecodeFieldsFrom(f: seq<nat>, k: nat, i: nat, index: int, bit: bool, acc: set<nat>)
    requires k <= |f| && |f| >= 1 && f[|f| - 1] >= 1 && Sum(f) < Two31
    requires i == 32 * k && index == Sum(f[..k]) && bit == Odd(k) && acc == Members(Replay(f[..k]))
    ensures -Two31 <= index < Two31
    ensures DecodeRuns(Members(Stream(f)), FieldStride, i, index, bit, acc) == Ok(Members(Replay(f)))
    decreases |f| - k
  {
    SumPrefix(f, k);
    if k == |f| {
      DecodeAtEnd(f, index, bit, acc);
      assert f[..k] == f;
    } else {
      FieldAt(f, k);
      FieldBelowSum(f, k);
      ReplayNextField(f, k);
      DecodeFieldsFrom(f, k + 1, 32 * (k + 1), Sum(f[..k + 1]), Odd(k + 1), Members(Replay(f[..k + 1])));
      assert Odd(k + 1) == !Odd(k);
      DecodeStep(Members(Stream(f)), i, index, bit, acc, f[k],
        32 * (k + 1), Sum(f[..k + 1]), Odd(k + 1), Members(Replay(f[..k + 1])), Ok(Members(Replay(f))));
    }
  }

  /** Past the last field no bit is set, so the decoder stops with what it has. */
  lemma {:induction false} DecodeAtEnd(f: seq<nat>, index: int, bit: bool, acc: set<nat>)
    requires -Two31 <= index < Two31
    ensures DecodeRuns(Members(Stream(f)), FieldStride, 32 * |f|, index, bit, acc) == Ok(acc)
  {
    NoBitsAfterStream(f);
  }

  /** The decoder finds a set bit and reads the value of field k at position 32 * k. */
  lemma {:induction false} FieldAt(f: seq<nat>, k: nat)
    requires k < |f| && f[|f| - 1] >= 1 && Sum(f) < Two31
    ensures HasSetBitFrom(Members(Stream(f)), 32 * k)
    ensures Int32Of(Window(Members(Stream(f)), 32 * k)) == f[k]
  {
    FieldBelowSum(f, k);
    FieldBelowSum(f, |f| - 1);
    SetBitInLastField(f, k);
    WindowOfStream(f, k);
    FieldRoundTrip(f[k]);
  }

  lemma {:induction false} FieldBelowSum(f: seq<nat>, k: nat)
    requires k < |f|
    ensures Sum(f[..k + 1]) == Sum(f[..k]) + f[k] <= Sum(f)
  {
    assert f[..k + 1][..k] == f[..k];
    SumPrefix(f, k + 1);
  }

  /** Replaying field k on top of the first k fields adds its run when k is odd. */
  lemma {:induction false} ReplayNextField(f: seq<nat>, k: nat)
    requires k < |f|
    ensures Members(Replay(f[..k + 1])) ==
      if Odd(k) then Members(Replay(f[..k])) + Range(Sum(f[..k]), Sum(f[..k + 1])) else Members(Replay(f[..k]))
  {
    assert f[..k + 1] == f[..k] + [f[k]];
    MembersOfReplaySnoc(f[..k], f[k]);
    FieldBelowSum(f, k);
  }

  /**
   * One step of the decoder with a stride of one field, reading a count that
   * needs no wrap-around: the rest of the decoding picks up at the next field.
   */
  lemma {:induction false} DecodeStep(m: set<nat>, i: nat, index: nat, bit: bool, acc: set<nat>, c: nat,
                                      i': nat, to: nat, bit': bool, acc': set<nat>, r: Result<set<nat>, BitSetError>)
    requires HasSetBitFrom(m, i) && Int32Of(Window(m, i)) == c && to == index + c < Two31
    requires i' == i + 32 && bit' == !bit
    requires acc' == if bit then acc + Range(index, to) else acc
    requires DecodeRuns(m, FieldStride, i', to, bit', acc') == r
    ensures DecodeRuns(m, FieldStride, i, index, bit, acc) == r
  {
  }

  /**
   * Decoding, with a stride of one field, the bits `encodeBitSet` writes for a
   * plane of fewer than 2^31 bits gives back exactly the plane's set bits.
   */
  lemma {:induction false} PlaneRoundTrip(plane: seq<bool>)
    requires |plane| < Two31
    ensures Decode(Members(Stream(Fields(plane)))) == Ok(Members(plane))
  {
    if |plane| == 0 {
      EmptyPlaneRoundTrip();
    } else {
      var f := Fields(plane);
      FieldsSum(plane);
      FieldsLast(plane);
      ReplayFields(plane);
      assert f[..0] == [];
      assert Members([]) == {};
      DecodeFieldsFrom(f, 0, 0, 0, false, {});
    }
  }

  /** An empty plane is written as one field 0, which sets no bit and decodes to nothing. */
  lemma {:induction false} EmptyPlaneRoundTrip()
    ensures Decode(Members(Stream(Fields([])))) == Ok(Members([]))
  {
    var f := Fields([]);
    assert f == [0];
    forall j | 0 <= j < 32
      ensures !Stream(f)[j]
    {
      ZeroHasNoBits(j);
    }
    assert Members(Stream(f)) == {};
    assert Members([]) == {};
  }

  // ---------------------------------------------------------------------
  // The stride of `decodeBitSet` as written

  /** The one-pixel plane whose pixel is set is written as the fields 0 and 1, i.e. only bit 32 is set. */
  lemma {:induction false} SetPixelWritten()
    ensures Fields([true]) == [0, 1]
    ensures Members(Stream([0, 1])) == {32}
  {
    assert [true][..0] == [];
    StreamOfZeroOne();
    BitsOfZeroOne(Stream([0, 1]), 32);
  }

  lemma {:induction false} StreamOfZeroOne()
    ensures Stream([0, 1]) == LowBits(0, 32) + LowBits(1, 32)
  {
    assert [0, 1][..1] == [0];
    assert [0][..0] == [];
    assert Stream([0]) == LowBits(0, 32);
  }

  lemma {:induction false} OneHasOneBit(i: nat)
    requires i >= 1
    ensures !Bit(1, i)
  {
    assert 1 / 2 == 0;
    assert Bit(1, i) == Bit(0, i - 1);
    ZeroHasNoBits(i - 1);
  }

  /** Of the 2n bits of the fields 0 and 1 of width n only bit n is set. */
  lemma {:induction false} BitsOfZeroOne(s: seq<bool>, n: nat)
    requires n >= 1 && s == LowBits(0, n) + LowBits(1, n)
    ensures Members(s) == {n}
  {
    forall k | 0 <= k < |s|
      ensures s[k] == (k == n)
    {
      ZeroOneBit(s, n, k);
    }
    MembersSingle(s, n);
  }

  /** Bit k of the fields 0 and 1 of width n is set exactly when k is n. */
  lemma ZeroOneBit(s: seq<bool>, n: nat, k: nat)
    requires n >= 1 && s == LowBits(0, n) + LowBits(1, n) && k < |s|
    ensures s[k] == (k == n)
  {
    if k < n {
      assert s[k] == LowBits(0, n)[k];
      ZeroHasNoBits(k);
    } else if k == n {
      assert s[k] == LowBits(1, n)[0] == Bit(1, 0);
    } else {
      assert s[k] == LowBits(1, n)[k - n];
      OneHasOneBit(k - n);
    }
  }

  /** A bit string whose only set bit is j has the members {j}. */
  lemma MembersSingle(s: seq<bool>, j: nat)
    requires j < |s| && forall k :: 0 <= k < |s| ==> s[k] == (k == j)
    ensures Members(s) == {j}
  {
    forall k: nat
      ensures k in Members(s) <==> k == j
    {
    }
  }

  /** The two windows the decoder reads from the bit set {32}: at 0 it reads 0, at 1 it reads -2^31. */
  lemma {:induction false} WindowsOfBit32(m: set<nat>)
    requires m == {32}
    ensures Int32Of(Window(m, 0)) == 0
    ensures Int32Of(Window(m, 1)) == -Two31
  {
    var w0 := Window(m, 0);
    BitsValueZero(w0);
    var w1 := Window(m, 1);
    var zeros := Run(false, 31);
    assert w1 == zeros + [true];
    BitsValueZero(zeros);
    BitsValueSnoc(zeros, true);
    Pow2Of31And32();
  }

  /**
   * Decoding as written fails on those bits: the first field reads 0, the
   * next read starts at `nextClearBit(1)` = 1, where the 32 bits 1..32 hold
   * only bit 32, read as the sign bit; the count -2^31 makes the run
   * `set(0, -2^31)`, which throws.
   */
  lemma {:induction false} AsWrittenFailsOnSetPixel()
    ensures DecodeAsWritten(Members(Stream(Fields([true])))) == Err(IndexOutOfBounds)
  {
    SetPixelWritten();
    AsWrittenFailsOnBit32({32});
  }

  lemma {:induction false} AsWrittenFailsOnBit32(m: set<nat>)
    requires m == {32}
    ensures DecodeAsWritten(m) == Err(IndexOutOfBounds)
  {
    assert 32 in m;
    assert HasSetBitFrom(m, 0) && HasSetBitFrom(m, 1);
    WindowsOfBit32(m);
    assert NextClearBit(m, 1) == 1;
    assert AddInt(0, -Two31) == -Two31;
    assert DecodeRuns(m, NextClearStride, 1, 0, true, {}) == Err(IndexOutOfBounds);
    assert AddInt(0, 0) == 0;
  }

  /** With a stride of one field the same bits decode to the plane: bit 0 set. */
  lemma {:induction false} CorrectedDecodesSetPixel()
    ensures Decode(Members(Stream(Fields([true])))) == Ok({0})
  {
    SetPlaneDecodes([true]);
  }

  lemma SetPlaneDecodes(plane: seq<bool>)
    requires plane == [true]
    ensures Decode(Members(Stream(Fields(plane)))) == Ok({0})
  {
    PlaneRoundTrip(plane);
    SetPixelMembers(plane);
  }

  lemma SetPixelMembers(plane: seq<bool>)
    requires plane == [true]
    ensures Members(plane) == {0}
  {
    assert plane[0];
  }
}
