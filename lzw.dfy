/**
 * LZW coding of the raw bytes of an image (`LZW.compress(byte[])` and
 * `LZW.decompress(List<Integer>)`). Both sides start from the 256
 * one-character strings at codes 0..255 and hand out the next code,
 * `dictSize`, to each new string.
 *
 * Java `String`s are sequences of `char` values, written here as `int`s.
 * The compressor only ever makes characters 0..255 (`b & 0xFF`); the
 * decompressor can meet others, since it casts its first code straight to a
 * `char`.
 */
module Lzw {
  import opened Results

  /** A Java `byte`. */
  type Byte = x: int | -128 <= x < 128

  datatype LzwError =
    | IndexOutOfBounds        // `remove(0)` on an empty list
    | IllegalArgument(k: int) // "Bad compressed k"
    | StringIndexOutOfBounds  // `charAt(0)` on an empty string

  /** `(char) (b & 0xFF)`. */
  function Unsigned(b: Byte): (c: int)
    ensures 0 <= c < 256
    ensures b >= 0 ==> c == b
  {
    b % 256
  }

  /** `(byte) ch` for a `char` ch: its low eight bits, read as a signed byte. */
  function ToByte(ch: int): (b: Byte)
    ensures (ch - b) % 256 == 0
  {
    (ch + 128) % 256 - 128
  }

  /** `(char) k` for an `int` k: its low sixteen bits. */
  function ToChar(k: int): (ch: int)
    ensures 0 <= ch < 0x1_0000
    ensures 0 <= k < 0x1_0000 ==> ch == k
  {
    k % 0x1_0000
  }

  /** The characters the compressor reads, one per byte. */
  function Chars(data: seq<Byte>): (cs: seq<int>)
    ensures |cs| == |data|
    ensures forall i :: 0 <= i < |data| ==> cs[i] == Unsigned(data[i])
  {
    seq(|data|, i requires 0 <= i < |data| => Unsigned(data[i]))
  }

  /** The bytes written back, one per character. */
  function Bytes(cs: seq<int>): (data: seq<Byte>)
    ensures |data| == |cs|
    ensures forall i :: 0 <= i < |cs| ==> data[i] == ToByte(cs[i])
  {
    seq(|cs|, i requires 0 <= i < |cs| => ToByte(cs[i]))
  }

  /** Writing back the characters read from some bytes gives those bytes. */
  lemma BytesOfChars(data: seq<Byte>)
    ensures Bytes(Chars(data)) == data
  {
    forall i | 0 <= i < |data|
      ensures Bytes(Chars(data))[i] == data[i]
    {
      var b: int := data[i];
      if b >= 0 {
        assert b % 256 == b && (b + 128) % 256 == b + 128;
      } else {
        assert b % 256 == b + 256 && (b + 384) % 256 == b + 128;
      }
    }
  }

  // ---------------------------------------------------------------------
  // The compressor
  // ---------------------------------------------------------------------

  /** The dictionary `compress` starts with: each one-character string c maps to c. */
  function InitialDictionary(): (dict: map<seq<int>, int>)
    ensures forall s :: s in dict <==> |s| == 1 && 0 <= s[0] < 256
    ensures forall s :: s in dict ==> dict[s] == s[0]
  {
    assert forall s: seq<int> :: |s| == 1 ==> s == [s[0]];
    map c | 0 <= c < 256 :: [c] := c
  }

  /**
   * The compressor's state after some bytes. `entries` lists the strings in
   * the order they were given codes (entries[c] is the key that maps to c);
   * the source does not keep it, it only serves to state what the
   * dictionary holds.
   */
  datatype Encoder = Encoder(dict: map<seq<int>, int>, dictSize: int, w: seq<int>, codes: seq<int>, entries: seq<seq<int>>)

  function InitialEntries(): (entries: seq<seq<int>>)
    ensures |entries| == 256
    ensures forall c :: 0 <= c < 256 ==> entries[c] == [c]
  {
    seq(256, c requires 0 <= c < 256 => [c])
  }

  /** Every one-character string is a key, and `w` is empty or a key. */
  predicate Ready(e: Encoder)
  {
    && InitialDictionary().Keys <= e.dict.Keys
    && (e.w == [] || e.w in e.dict)
  }

  /**
   * One pass of the `for (byte b : data)` loop, for the character c of b:
   * extend `w` by c when that is a key; otherwise emit the code of `w`, give
   * `w + c` the next code and restart `w` at c.
   */
  function EncodeStep(e: Encoder, c: int): (r: Encoder)
    requires Ready(e) && 0 <= c < 256
    ensures Ready(r)
  {
    var wb := e.w + [c];
    if wb in e.dict then e.(w := wb)
    else
      assert [c] in InitialDictionary();
      Encoder(e.dict[wb := e.dictSize], e.dictSize + 1, [c], e.codes + [e.dict[e.w]], e.entries + [wb])
  }

  /** The compressor's state after the given bytes. */
  function Run(data: seq<Byte>): (r: Encoder)
    ensures Ready(r)
  {
    if data == [] then Encoder(InitialDictionary(), 256, [], [], InitialEntries())
    else EncodeStep(Run(data[..|data| - 1]), Unsigned(data[|data| - 1]))
  }

  /** What `compress(data)` returns: the codes emitted in the loop and then the code of a non-empty `w`. */
  function CompressSpec(data: seq<Byte>): seq<int>
  {
    var e := Run(data);
    if e.w == [] then e.codes else e.codes + [e.dict[e.w]]
  }

  /** The concatenation of the strings of the given codes. */
  function Flatten(entries: seq<seq<int>>, codes: seq<int>): seq<int>
    requires forall j :: 0 <= j < |codes| ==> 0 <= codes[j] < |entries|
  {
    if codes == [] then [] else Flatten(entries, codes[..|codes| - 1]) + entries[codes[|codes| - 1]]
  }

  /** Entries added later do not change the strings of codes handed out earlier. */
  lemma {:induction false} FlattenExtend(entries: seq<seq<int>>, more: seq<seq<int>>, codes: seq<int>)
    requires forall j :: 0 <= j < |codes| ==> 0 <= codes[j] < |entries|
    ensures Flatten(entries + more, codes) == Flatten(entries, codes)
  {
    if codes != [] {
      FlattenExtend(entries, more, codes[..|codes| - 1]);
    }
  }

  /**
   * `dict` and `entries` describe the same dictionary: entry c is the key
   * of code c, every key's code has that entry, no string is empty and the
   * first 256 entries are the one-character strings.
   */
  predicate TableOf(dict: map<seq<int>, int>, entries: seq<seq<int>>)
  {
    && |entries| >= 256
    && (forall c :: 0 <= c < 256 ==> entries[c] == [c])
    && (forall c :: 0 <= c < |entries| ==> entries[c] in dict && dict[entries[c]] == c && |entries[c]| >= 1)
    && (forall s :: s in dict ==> 0 <= dict[s] < |entries| && entries[dict[s]] == s)
  }

  /**
   * The m-th code is below 256 + m (it was in the dictionary when it was
   * emitted), and entry 256 + m is the string of the m-th code followed by
   * the first character of what came next: the next code's string, or
   * `next` after the last code.
   */
  predicate Chained(entries: seq<seq<int>>, codes: seq<int>, next: seq<int>)
  {
    && 256 + |codes| <= |entries|
    && (forall m :: 0 <= m < |codes| ==> 0 <= codes[m] < 256 + m)
    && (forall c :: 0 <= c < |entries| ==> |entries[c]| >= 1)
    && (forall m :: 0 <= m < |codes| - 1 ==> entries[256 + m] == entries[codes[m]] + [entries[codes[m + 1]][0]])
    && (codes != [] ==> next != [] && entries[256 + |codes| - 1] == entries[codes[|codes| - 1]] + [next[0]])
  }

  /**
   * The compressor's invariant after the characters p: the dictionary has
   * `dictSize` = 256 + (codes emitted) entries, the codes are chained, and
   * their strings followed by `w` spell p.
   */
  predicate Valid(e: Encoder, p: seq<int>)
  {
    && |e.entries| == e.dictSize == 256 + |e.codes|
    && TableOf(e.dict, e.entries)
    && Chained(e.entries, e.codes, e.w)
    && Flatten(e.entries, e.codes) + e.w == p
    && (e.w == [] <==> p == [])
    && (e.w != [] ==> e.w in e.dict)
    && |e.codes| + (if e.w == [] then 0 else 1) <= |p|
  }

  /** The starting state is valid for no input. */
  lemma InitialValid()
    ensures Valid(Run([]), [])
  {
    var dict, entries := InitialDictionary(), InitialEntries();
    assert Run([]) == Encoder(dict, 256, [], [], entries);
    InitialTable();
    assert Flatten(entries, []) == [];
  }

  /** The 256 one-character strings and their codes form a table. */
  lemma InitialTable()
    ensures TableOf(InitialDictionary(), InitialEntries())
  {
    var dict, entries := InitialDictionary(), InitialEntries();
    forall s | s in dict
      ensures 0 <= dict[s] < |entries| && entries[dict[s]] == s
    {
      assert s == [s[0]];
    }
  }

  /** Extending `w` by a character keeps the invariant. */
  lemma {:induction false} ExtendValid(e: Encoder, p: seq<int>, c: int)
    requires Valid(e, p) && 0 <= c < 256 && e.w + [c] in e.dict
    ensures Valid(e.(w := e.w + [c]), p + [c])
  {
    if e.w == [] {
      assert e.codes == [];
    }
  }

  /** Emitting the code of `w` and adding `w + c` keeps the invariant. */
  lemma {:induction false} EmitValid(e: Encoder, p: seq<int>, c: int)
    requires Valid(e, p) && Ready(e) && 0 <= c < 256 && e.w + [c] !in e.dict
    ensures e.w in e.dict
    ensures Valid(EncodeStep(e, c), p + [c])
  {
    var wb := e.w + [c];
    PendingNotEmpty(e, c);
    var code := e.dict[e.w];
    EmitTable(e.dict, e.entries, wb);
    EmitChained(e.entries, e.codes, e.w, code, c);
    EmitFlatten(e.entries, e.codes, e.w, code, c);
    SingleInDictionary(e.dict, c);
  }

  /** A byte alone is always in the table, so a miss needs a non-empty w. */
  lemma PendingNotEmpty(e: Encoder, c: int)
    requires Ready(e) && 0 <= c < 256 && e.w + [c] !in e.dict
    ensures e.w != []
  {
    if e.w == [] {
      SingleInDictionary(e.dict, c);
      assert false;
    }
  }

  /** Every table that extends the initial one holds each single byte. */
  lemma SingleInDictionary(dict: map<seq<int>, int>, c: int)
    requires InitialDictionary().Keys <= dict.Keys && 0 <= c < 256
    ensures [c] in dict
  {
    assert [c] in InitialDictionary();
  }

  lemma {:induction false} EmitFlatten(entries: seq<seq<int>>, codes: seq<int>, w: seq<int>, code: int, c: int)
    requires forall j :: 0 <= j < |codes| ==> 0 <= codes[j] < |entries|
    requires 0 <= code < |entries| && entries[code] == w
    ensures Flatten(entries + [w + [c]], codes + [code]) + [c] == Flatten(entries, codes) + w + [c]
  {
    FlattenExtend(entries, [w + [c]], codes);
    assert (codes + [code])[..|codes|] == codes;
  }

  lemma {:induction false} EmitTable(dict: map<seq<int>, int>, entries: seq<seq<int>>, wb: seq<int>)
    requires TableOf(dict, entries) && wb !in dict && |wb| >= 1
    ensures TableOf(dict[wb := |entries|], entries + [wb])
  {
    var d, es := dict[wb := |entries|], entries + [wb];
    forall c | 0 <= c < |es|
      ensures es[c] in d && d[es[c]] == c && |es[c]| >= 1
    {
      if c < |entries| {
        assert es[c] == entries[c] && entries[c] in dict;
      }
    }
  }

  lemma {:induction false} EmitChained(entries: seq<seq<int>>, codes: seq<int>, w: seq<int>, code: int, c: int)
    requires Chained(entries, codes, w) && |entries| == 256 + |codes|
    requires 0 <= code < |entries| && entries[code] == w
    ensures Chained(entries + [w + [c]], codes + [code], [c])
  {
    var es, cs := entries + [w + [c]], codes + [code];
    forall m | 0 <= m < |cs| - 1
      ensures es[256 + m] == es[cs[m]] + [es[cs[m + 1]][0]]
    {
      if m < |codes| - 1 {
        assert cs[m] == codes[m] && cs[m + 1] == codes[m + 1];
      } else {
        assert cs[m + 1] == code;
      }
    }
  }

  lemma {:induction false} StepValid(e: Encoder, p: seq<int>, c: int)
    requires Valid(e, p) && Ready(e) && 0 <= c < 256
    ensures Valid(EncodeStep(e, c), p + [c])
  {
    if e.w + [c] in e.dict {
      ExtendValid(e, p, c);
    } else {
      EmitValid(e, p, c);
    }
  }

  lemma CharsSnoc(data: seq<Byte>)
    requires data != []
    ensures Chars(data) == Chars(data[..|data| - 1]) + [Unsigned(data[|data| - 1])]
  {
  }

  /** The compressor's state after any input satisfies the invariant for the characters of that input. */
  lemma {:induction false} RunValid(data: seq<Byte>)
    ensures Valid(Run(data), Chars(data))
  {
    if data == [] {
      InitialValid();
    } else {
      var init := data[..|data| - 1];
      var c := Unsigned(data[|data| - 1]);
      RunValid(init);
      CharsSnoc(data);
      StepValid(Run(init), Chars(init), c);
    }
  }

  // ---------------------------------------------------------------------
  // The decompressor
  // ---------------------------------------------------------------------

  /** The dictionary `decompress` starts with: each code c below 256 maps to the one-character string c. */
  function InitialStrings(): (dict: map<int, seq<int>>)
    ensures forall k :: k in dict <==> 0 <= k < 256
    ensures forall k :: k in dict ==> dict[k] == [k]
  {
    map k | 0 <= k < 256 :: [k]
  }

  /** The decompressor's state: its dictionary, `dictSize`, `w` and the characters appended to `result`. */
  datatype Decoder = Decoder(dict: map<int, seq<int>>, dictSize: int, w: seq<int>, out: seq<int>)

  /**
   * One pass of the `for (int k : compressedData)` loop: the entry of k is
   * its string when k is a key, `w + w[0]` when k is `dictSize`, and
   * otherwise k is rejected; the entry is appended to the output, `dictSize`
   * gets `w` followed by the entry's first character, and `w` becomes the
   * entry.
   */
  function DecodeStep(d: Decoder, k: int): (r: Result<Decoder, LzwError>)
    ensures k !in d.dict && k != d.dictSize ==> r == Err(IllegalArgument(k))
    ensures r.Ok? ==> r.value.dict.Keys == d.dict.Keys + {d.dictSize} && r.value.dictSize == d.dictSize + 1
    ensures r.Ok? ==> r.value.out == d.out + r.value.w && |r.value.w| >= 1 && r.value.dict[d.dictSize] == d.w + [r.value.w[0]]
  {
    var entry :=
      if k in d.dict then Ok(d.dict[k])
      else if k == d.dictSize then (if d.w == [] then Err(StringIndexOutOfBounds) else Ok(d.w + [d.w[0]]))
      else Err(IllegalArgument(k));
    match entry
    case Err(e) => Err(e)
    case Ok(entry) =>
      if entry == [] then Err(StringIndexOutOfBounds)
      else Ok(Decoder(d.dict[d.dictSize := d.w + [entry[0]]], d.dictSize + 1, entry, d.out + entry))
  }

  /** The loop over the codes ks, stopping at the first exception. */
  function DecodeAll(d: Decoder, ks: seq<int>): Result<Decoder, LzwError>
  {
    if ks == [] then Ok(d)
    else match DecodeAll(d, ks[..|ks| - 1])
      case Err(e) => Err(e)
      case Ok(d') => DecodeStep(d', ks[|ks| - 1])
  }

  /** The state after the first code: `w` and the output are that code cast to a `char`. */
  function FirstDecoder(k: int): Decoder
  {
    Decoder(InitialStrings(), 256, [ToChar(k)], [ToChar(k)])
  }

  /** What `decompress(codes)` returns or throws. */
  function DecompressSpec(codes: seq<int>): Result<seq<Byte>, LzwError>
  {
    if codes == [] then Err(IndexOutOfBounds)
    else match DecodeAll(FirstDecoder(codes[0]), codes[1..])
      case Err(e) => Err(e)
      case Ok(d) => Ok(Bytes(d.out))
  }

  /**
   * Whenever the loop gets through codes ks, the dictionary holds exactly
   * the codes below `dictSize`, which has grown by one per code, so
   * `containsKey(k)` is `0 <= k < dictSize`.
   */
  lemma {:induction false} DecodeAllGrows(d: Decoder, ks: seq<int>)
    requires d.dictSize >= 0 && forall k :: k in d.dict <==> 0 <= k < d.dictSize
    requires DecodeAll(d, ks).Ok?
    ensures DecodeAll(d, ks).value.dictSize == d.dictSize + |ks|
    ensures forall k :: k in DecodeAll(d, ks).value.dict <==> 0 <= k < d.dictSize + |ks|
  {
    if ks != [] {
      DecodeAllGrows(d, ks[..|ks| - 1]);
      var before := DecodeAll(d, ks[..|ks| - 1]).value;
      var after := DecodeStep(before, ks[|ks| - 1]).value;
      assert DecodeAll(d, ks).value == after;
      forall k
        ensures k in after.dict <==> 0 <= k < d.dictSize + |ks|
      {
        assert k in after.dict.Keys <==> k in before.dict.Keys || k == before.dictSize;
      }
    }
  }

  /** An exception on a prefix of the codes is the exception of the whole loop. */
  lemma {:induction false} DecodeAllErr(d: Decoder, ks: seq<int>, i: nat)
    requires i <= |ks| && DecodeAll(d, ks[..i]).Err?
    ensures DecodeAll(d, ks) == DecodeAll(d, ks[..i])
    decreases |ks| - i
  {
    if i < |ks| {
      assert ks[..i + 1][..i] == ks[..i];
      DecodeAllErr(d, ks, i + 1);
    } else {
      assert ks[..i] == ks;
    }
  }

  /**
   * A list of codes as the compressor emits them, with the strings of its
   * dictionary: the first 256 are the one-character strings, none is empty,
   * the m-th code is below 256 + m (it was in the dictionary when it was
   * emitted), and entry 256 + m, added with the m-th code, is that code's
   * string followed by the first character of the next code's string.
   */
  predicate Chain(entries: seq<seq<int>>, codes: seq<int>)
  {
    && 256 <= |entries| && 256 + |codes| <= |entries| + 1
    && (forall m :: 0 <= m < |codes| ==> 0 <= codes[m] < 256 + m)
    && (forall c :: 0 <= c < 256 ==> entries[c] == [c])
    && (forall c :: 0 <= c < |entries| ==> |entries[c]| >= 1)
    && (forall m :: 0 <= m < |codes| - 1 ==> entries[256 + m] == entries[codes[m]] + [entries[codes[m + 1]][0]])
  }

  /** After the last byte, the codes emitted and then the code of `w` form a chain that spells the input. */
  lemma {:induction false} FinishChain(e: Encoder, p: seq<int>)
    requires Valid(e, p) && e.w != []
    ensures Chain(e.entries, e.codes + [e.dict[e.w]])
    ensures Flatten(e.entries, e.codes + [e.dict[e.w]]) == p
  {
    var codes := e.codes + [e.dict[e.w]];
    assert codes[..|e.codes|] == e.codes;
    forall m | 0 <= m < |codes| - 1
      ensures e.entries[256 + m] == e.entries[codes[m]] + [e.entries[codes[m + 1]][0]]
    {
      assert codes[m] == e.codes[m];
      if m + 1 < |e.codes| {
        assert codes[m + 1] == e.codes[m + 1];
      }
    }
  }

  /**
   * The decoder has read the codes L[..j+1] of a chain: its dictionary
   * holds the first 256 + j entries, `w` is the string of L[j] and the
   * output is the strings of L[..j+1].
   */
  ghost predicate DecodedUpTo(d: Decoder, entries: seq<seq<int>>, codes: seq<int>, j: nat)
    requires Chain(entries, codes) && j < |codes|
  {
    && d.dictSize == 256 + j
    && (forall k :: k in d.dict <==> 0 <= k < 256 + j)
    && (forall k :: 0 <= k < 256 + j ==> d.dict[k] == entries[k])
    && d.w == entries[codes[j]]
    && d.out == Flatten(entries, codes[..j + 1])
  }

  /**
   * Reading the next code of a chain, a known code or the `k == dictSize`
   * one, yields its string and adds the entry the compressor added.
   */
  lemma {:induction false} DecodeChainStep(d: Decoder, entries: seq<seq<int>>, codes: seq<int>, j: nat)
    requires Chain(entries, codes) && j + 1 < |codes| && DecodedUpTo(d, entries, codes, j)
    ensures DecodeStep(d, codes[j + 1]).Ok?
    ensures DecodedUpTo(DecodeStep(d, codes[j + 1]).value, entries, codes, j + 1)
  {
    var k := codes[j + 1];
    var added := entries[256 + j];
    assert added == d.w + [entries[k][0]];
    if k == 256 + j {
      assert added[0] == d.w[0];
    }
    var r := DecodeStep(d, k).value;
    assert r.w == entries[k];
    assert codes[..j + 2][..j + 1] == codes[..j + 1];
  }

  /** The decoder gets through the first j+1 codes of a chain in the state `DecodedUpTo` describes. */
  lemma {:induction false} DecodeChain(entries: seq<seq<int>>, codes: seq<int>, j: nat)
    requires Chain(entries, codes) && j < |codes|
    ensures DecodeAll(FirstDecoder(codes[0]), codes[1..j + 1]).Ok?
    ensures DecodedUpTo(DecodeAll(FirstDecoder(codes[0]), codes[1..j + 1]).value, entries, codes, j)
  {
    var first := FirstDecoder(codes[0]);
    if j == 0 {
      DecodeChainFirst(entries, codes);
    } else {
      DecodeChain(entries, codes, j - 1);
      var d := DecodeAll(first, codes[1..j]).value;
      DecodeChainStep(d, entries, codes, j - 1);
      DecodeAllNext(first, codes, j);
    }
  }

  /** Before any loop pass the decoder holds the first code's string. */
  lemma DecodeChainFirst(entries: seq<seq<int>>, codes: seq<int>)
    requires Chain(entries, codes) && 0 < |codes|
    ensures DecodeAll(FirstDecoder(codes[0]), codes[1..1]).Ok?
    ensures DecodedUpTo(DecodeAll(FirstDecoder(codes[0]), codes[1..1]).value, entries, codes, 0)
  {
    assert codes[1..1] == [];
    assert codes[..1] == [codes[0]];
    assert Flatten(entries, [codes[0]]) == Flatten(entries, []) + entries[codes[0]];
  }

  /** The loop over codes[1..j+1] is the loop over codes[1..j] and one more pass. */
  lemma DecodeAllNext(first: Decoder, codes: seq<int>, j: nat)
    requires 1 <= j < |codes|
    ensures DecodeAll(first, codes[1..j + 1]) == match DecodeAll(first, codes[1..j]) case Err(e) => Err(e) case Ok(d') => DecodeStep(d', codes[j])
  {
    assert codes[1..j + 1][..j - 1] == codes[1..j];
  }

  /** `decompress(compress(data))` is data, for every non-empty input. */
  lemma {:induction false} RoundTrip(data: seq<Byte>)
    requires data != []
    ensures DecompressSpec(CompressSpec(data)) == Ok(data)
  {
    var e := Run(data);
    RunValid(data);
    FinishChain(e, Chars(data));
    DecodeWhole(e.entries, CompressSpec(data));
    BytesOfChars(data);
  }

  /** Decoding a whole chained code list yields the concatenation of its strings. */
  lemma DecodeWhole(entries: seq<seq<int>>, codes: seq<int>)
    requires Chain(entries, codes) && codes != []
    ensures DecodeAll(FirstDecoder(codes[0]), codes[1..]).Ok?
    ensures DecodeAll(FirstDecoder(codes[0]), codes[1..]).value.out == Flatten(entries, codes)
  {
    DecodeChain(entries, codes, |codes| - 1);
    assert codes[1..|codes|] == codes[1..] && codes[..|codes|] == codes;
  }

  /**
   * Empty input gives no code and non-empty input at least one; there are
   * never more codes than bytes; each code is below the `dictSize` of the
   * moment it was emitted, and the final `dictSize` is 256 plus one entry per
   * code but the last.
   */
  lemma {:induction false} CompressBounds(data: seq<Byte>)
    ensures CompressSpec(data) == [] <==> data == []
    ensures |CompressSpec(data)| <= |data|
    ensures forall m :: 0 <= m < |CompressSpec(data)| ==> 0 <= CompressSpec(data)[m] < 256 + m
    ensures data != [] ==> Run(data).dictSize == 256 + |CompressSpec(data)| - 1 <= 256 + |data| - 1
  {
    RunValid(data);
    var e := Run(data);
    if e.w != [] {
      FinishChain(e, Chars(data));
    }
  }

  /**
   * The dictionary strings of the emitted codes, in order, spell the
   * characters of the input: each code's entry is the key the dictionary
   * maps to that code.
   */
  lemma {:induction false} CompressCovers(data: seq<Byte>)
    requires data != []
    ensures forall m :: 0 <= m < |CompressSpec(data)| ==> 0 <= CompressSpec(data)[m] < |Run(data).entries|
    ensures forall c :: 0 <= c < |Run(data).entries| ==> Run(data).entries[c] in Run(data).dict && Run(data).dict[Run(data).entries[c]] == c
    ensures Flatten(Run(data).entries, CompressSpec(data)) == Chars(data)
  {
    var e, p := Run(data), Chars(data);
    RunValid(data);
    assert p != [];
    var codes := e.codes + [e.dict[e.w]];
    assert CompressSpec(data) == codes;
    FinishChain(e, p);
  }

  /**
   * Four equal bytes compress to three codes: the byte, then 256, the new
   * code of the byte twice, then the byte again.
   */
  lemma {:induction false} CompressRepeated(data: seq<Byte>)
    requires |data| == 4 && forall i :: 0 <= i < 4 ==> data[i] == data[0]
    ensures CompressSpec(data) == [Unsigned(data[0]), 256, Unsigned(data[0])]
  {
    LastOfFour(data);
    RepeatedThree(data);
    FourthStep(Run(data[..3]), Unsigned(data[0]));
  }

  /** The dictionary gains "cc" at 256, and only after the second byte. */
  lemma {:induction false} RepeatedTwo(data: seq<Byte>)
    requires |data| == 4 && forall i :: 0 <= i < 4 ==> data[i] == data[0]
    ensures var c := Unsigned(data[0]); var e := Run(data[..2]);
      e.dict == InitialDictionary()[[c, c] := 256] && e.dictSize == 257 && e.w == [c] && e.codes == [c]
  {
    var c := Unsigned(data[0]);
    assert data[..0] == [];
    RunSnoc(data, 0);
    RunSnoc(data, 1);
    FirstStep(c);
    SecondStep(Run(data[..1]), c);
  }

  /** The first byte only sets `w` to "c". */
  lemma FirstStep(c: int)
    requires 0 <= c < 256
    ensures var e := EncodeStep(Run([]), c);
      e.dict == InitialDictionary() && e.dictSize == 256 && e.w == [c] && e.codes == []
  {
    assert [c] in InitialDictionary();
    assert [] + [c] == [c];
  }

  /** The second byte: "cc" is new, so the code of "c" is emitted and "cc" gets 256. */
  lemma SecondStep(e: Encoder, c: int)
    requires Ready(e) && 0 <= c < 256
    requires e.dict == InitialDictionary() && e.dictSize == 256 && e.w == [c] && e.codes == []
    ensures var e2 := EncodeStep(e, c);
      e2.dict == InitialDictionary()[[c, c] := 256] && e2.dictSize == 257 && e2.w == [c] && e2.codes == [c]
  {
    var d0 := InitialDictionary();
    assert [c] in d0 && d0[[c]] == c && [c, c] !in d0;
    assert [c] + [c] == [c, c];
  }

  /** The third byte only extends `w` to "cc". */
  lemma {:induction false} RepeatedThree(data: seq<Byte>)
    requires |data| == 4 && forall i :: 0 <= i < 4 ==> data[i] == data[0]
    ensures var c := Unsigned(data[0]); var e := Run(data[..3]);
      e.dict == InitialDictionary()[[c, c] := 256] && e.dictSize == 257 && e.w == [c, c] && e.codes == [c]
  {
    var c := Unsigned(data[0]);
    RepeatedTwo(data);
    assert [c] + [c] == [c, c];
    RunSnoc(data, 2);
  }

  /** The fourth byte: "ccc" is new, so code 256 of "cc" is emitted and `w` restarts at "c". */
  lemma FourthStep(e: Encoder, c: int)
    requires Ready(e) && 0 <= c < 256
    requires e.dict == InitialDictionary()[[c, c] := 256] && e.dictSize == 257 && e.w == [c, c] && e.codes == [c]
    ensures var e4 := EncodeStep(e, c); e4.w == [c] && e4.w in e4.dict && e4.codes + [e4.dict[e4.w]] == [c, 256, c]
  {
    var d0 := InitialDictionary();
    var cc := [c, c];
    var ccc := cc + [c];
    assert ccc == [c, c, c];
    assert ccc !in d0 && ccc != cc;
    assert [c] + [256] == [c, 256];
    assert [c] in d0 && d0[[c]] == c && [c] != cc && [c] != ccc;
    assert [c, 256] + [c] == [c, 256, c];
  }

  /** The fourth of four equal bytes is the step after the first three. */
  lemma LastOfFour(data: seq<Byte>)
    requires |data| == 4 && forall i :: 0 <= i < 4 ==> data[i] == data[0]
    ensures Run(data) == EncodeStep(Run(data[..3]), Unsigned(data[0]))
  {
    RunSnoc(data, 3);
    assert data[3] == data[0];
    assert data[..4] == data;
  }

  /**
   * [c, 256, c] decompresses to four bytes c: code 256 is not yet in the
   * dictionary, so it is the `k == dictSize` case, "c" followed by 'c'.
   */
  lemma {:induction false} DecompressRepeated(b: Byte)
    ensures DecompressSpec([Unsigned(b), 256, Unsigned(b)]) == Ok([b, b, b, b])
  {
    var c := Unsigned(b);
    var ks := [c, 256, c];
    assert ks[0] == c && ks[1..] == [256, c];
    DecodeAllTwo(FirstDecoder(c), 256, c);
    SecondCode(c);
    ThirdCode(DecodeStep(FirstDecoder(c), 256).value, c);
    FourBytes(b);
  }

  /** Decoding two codes is one step after the other. */
  lemma DecodeAllTwo(d: Decoder, k1: int, k2: int)
    ensures DecodeAll(d, [k1, k2]) == match DecodeStep(d, k1) case Err(e) => Err(e) case Ok(d1) => DecodeStep(d1, k2)
  {
    var ks := [k1, k2];
    DecodeAllSnoc(d, ks, 0);
    DecodeAllSnoc(d, ks, 1);
    assert ks[..0] == [] && ks[..2] == ks;
  }

  /** Code 256 right after the first code c is the not-yet-added entry: c followed by c. */
  lemma SecondCode(c: int)
    requires 0 <= c < 256
    ensures DecodeStep(FirstDecoder(c), 256).Ok?
    ensures var d1 := DecodeStep(FirstDecoder(c), 256).value;
      d1.w == [c, c] && d1.out == [c, c, c] && c in d1.dict && d1.dict[c] == [c]
  {
    var d0 := FirstDecoder(c);
    assert 256 !in d0.dict && d0.w == [c];
    assert [c] + [c] == [c, c] && [c] + [c, c] == [c, c, c];
  }

  /** Code c after that writes c once more. */
  lemma ThirdCode(d1: Decoder, c: int)
    requires d1.w == [c, c] && d1.out == [c, c, c] && c in d1.dict && d1.dict[c] == [c]
    ensures DecodeStep(d1, c).Ok? && DecodeStep(d1, c).value.out == [c, c, c, c]
  {
    assert [c, c, c] + [c] == [c, c, c, c];
  }

  lemma FourBytes(b: Byte)
    ensures Bytes([Unsigned(b), Unsigned(b), Unsigned(b), Unsigned(b)]) == [b, b, b, b]
  {
    BytesOfChars([b, b, b, b]);
    assert Chars([b, b, b, b]) == [Unsigned(b), Unsigned(b), Unsigned(b), Unsigned(b)];
  }

  /** "AAAA" compresses to [65, 256, 65], which decompresses back to "AAAA". */
  lemma ExampleAAAA()
    ensures CompressSpec([65, 65, 65, 65]) == [65, 256, 65]
    ensures DecompressSpec([65, 256, 65]) == Ok([65, 65, 65, 65])
  {
    CompressRepeated([65, 65, 65, 65]);
    DecompressRepeated(65);
  }

  // ---------------------------------------------------------------------
  // The methods
  // ---------------------------------------------------------------------

  /** The compressor's state after one more byte. */
  lemma RunSnoc(data: seq<Byte>, i: nat)
    requires i < |data|
    ensures Run(data[..i + 1]) == EncodeStep(Run(data[..i]), Unsigned(data[i]))
  {
    assert data[..i + 1][..i] == data[..i];
  }

  /** The compressor's state after a byte appended to the input. */
  lemma RunAppend(data: seq<Byte>, b: Byte)
    ensures Run(data + [b]) == EncodeStep(Run(data), Unsigned(b))
  {
    assert (data + [b])[..|data|] == data;
  }

  /** The seeding loop of `compress`: each one-character string c gets code c. */
  method SeedCodes() returns (dictionary: map<seq<int>, int>)
    ensures dictionary == InitialDictionary()
  {
    dictionary := map[];
    for i := 0 to 256
      invariant forall s :: s in dictionary <==> |s| == 1 && 0 <= s[0] < i
      invariant forall s :: s in dictionary ==> dictionary[s] == s[0]
    {
      forall s: seq<int> | |s| == 1 && s[0] == i
        ensures s == [i]
      {
        assert s == [s[0]];
      }
      dictionary := dictionary[[i] := i];
    }
    assert dictionary.Keys == InitialDictionary().Keys;
  }

  /** The body of the loop of `compress` for the character c of one byte: it performs EncodeStep. */
  method CompressByte(dictionary: map<seq<int>, int>, dictSize: int, w: seq<int>, result: seq<int>, ghost entries: seq<seq<int>>, c: int)
    returns (dictionary': map<seq<int>, int>, dictSize': int, w': seq<int>, result': seq<int>, ghost entries': seq<seq<int>>)
    requires Ready(Encoder(dictionary, dictSize, w, result, entries)) && 0 <= c < 256
    ensures var e := EncodeStep(Encoder(dictionary, dictSize, w, result, entries), c);
      dictionary' == e.dict && dictSize' == e.dictSize && w' == e.w && result' == e.codes
    ensures entries' == EncodeStep(Encoder(dictionary, dictSize, w, result, entries), c).entries
  {
    var wb := w + [c];
    if wb in dictionary {
      dictionary', dictSize', w', result', entries' := dictionary, dictSize, wb, result, entries;
    } else {
      assert [c] in InitialDictionary();
      result' := result + [dictionary[w]];
      dictionary' := dictionary[wb := dictSize];
      dictSize' := dictSize + 1;
      w' := [c];
      entries' := entries + [wb];
    }
  }

  /** `compress(byte[] data)`. */
  method Compress(data: array<Byte>) returns (result: seq<int>)
    ensures result == CompressSpec(data[..])
  {
    var dictSize := 256;
    var dictionary := SeedCodes();
    var w: seq<int> := [];
    result := [];
    ghost var entries := InitialEntries();
    for i := 0 to data.Length
      invariant Run(data[..i]) == Encoder(dictionary, dictSize, w, result, entries)
    {
      RunSnoc(data[..], i);
      dictionary, dictSize, w, result, entries := CompressByte(dictionary, dictSize, w, result, entries, Unsigned(data[i]));
    }
    assert data[..] == data[..data.Length];
    if w != [] {
      result := result + [dictionary[w]];
    }
  }

  /** A `java.util.List<Integer>` that `decompress` takes and alters. */
  class IntList {
    var elems: seq<int>

    constructor (elems: seq<int>)
      ensures this.elems == elems
    {
      this.elems := elems;
    }

    /** `remove(0)`: the first element, now gone from the list; an empty list throws. */
    method RemoveFirst() returns (r: Result<int, LzwError>)
      modifies this
      ensures old(elems) == [] ==> r == Err(IndexOutOfBounds) && elems == old(elems)
      ensures old(elems) != [] ==> r == Ok(old(elems)[0]) && elems == old(elems)[1..]
    {
      if elems == [] {
        return Err(IndexOutOfBounds);
      }
      r := Ok(elems[0]);
      elems := elems[1..];
    }
  }

  /** The seeding loop of `decompress`: each code c below 256 gets the one-character string c. */
  method SeedStrings() returns (dictionary: map<int, seq<int>>)
    ensures dictionary == InitialStrings()
  {
    dictionary := map[];
    for i := 0 to 256
      invariant forall k :: k in dictionary <==> 0 <= k < i
      invariant forall k :: k in dictionary ==> dictionary[k] == [k]
    {
      dictionary := dictionary[i := [i]];
    }
    assert dictionary.Keys == InitialStrings().Keys;
  }

  /** The decoder's state after one more code. */
  lemma DecodeAllSnoc(d: Decoder, ks: seq<int>, i: nat)
    requires i < |ks|
    ensures DecodeAll(d, ks[..i + 1]) == match DecodeAll(d, ks[..i]) case Err(e) => Err(e) case Ok(d') => DecodeStep(d', ks[i])
  {
    assert ks[..i + 1][..i] == ks[..i];
  }

  /** The closing loop of `decompress`: each character cast to a byte, into a new array. */
  method WriteBytes(result: seq<int>) returns (data: seq<Byte>)
    ensures data == Bytes(result)
  {
    var decompressedData := new Byte[|result|];
    for i := 0 to |result|
      invariant forall j :: 0 <= j < i ==> decompressedData[j] == ToByte(result[j])
    {
      decompressedData[i] := ToByte(result[i]);
    }
    data := decompressedData[..];
  }

  /**
   * One pass of the loop of `decompress` over the code k, from the
   * dictionary, `dictSize`, `w` and `result` before it.
   */
  method DecodeCode(dictionary: map<int, seq<int>>, dictSize: int, w: seq<int>, result: seq<int>, k: int)
    returns (r: Result<Decoder, LzwError>)
    ensures r == DecodeStep(Decoder(dictionary, dictSize, w, result), k)
  {
    var entry: seq<int>;
    if k in dictionary {
      entry := dictionary[k];
    } else if k == dictSize {
      if w == [] {
        return Err(StringIndexOutOfBounds);
      }
      entry := w + [w[0]];
    } else {
      return Err(IllegalArgument(k));
    }
    var appended := result + entry;
    if entry == [] {
      return Err(StringIndexOutOfBounds);
    }
    r := Ok(Decoder(dictionary[dictSize := w + [entry[0]]], dictSize + 1, entry, appended));
  }

  /**
   * `decompress(compressedData)`: returns or throws what `DecompressSpec`
   * says, and leaves the caller's list without its first code.
   */
  method Decompress(compressedData: IntList) returns (r: Result<seq<Byte>, LzwError>)
    modifies compressedData
    ensures r == DecompressSpec(old(compressedData.elems))
    ensures compressedData.elems == if old(compressedData.elems) == [] then [] else old(compressedData.elems)[1..]
  {
    var dictSize := 256;
    var dictionary := SeedStrings();
    var first := compressedData.RemoveFirst();
    if first.Err? {
      return Err(first.error);
    }
    var w := [ToChar(first.value)];
    var result := w;
    var codes := compressedData.elems;
    ghost var start := FirstDecoder(first.value);
    for i := 0 to |codes|
      invariant DecodeAll(start, codes[..i]) == Ok(Decoder(dictionary, dictSize, w, result))
      invariant compressedData.elems == codes
    {
      DecodeAllSnoc(start, codes, i);
      var next := DecodeCode(dictionary, dictSize, w, result, codes[i]);
      if next.Err? {
        DecodeAllErr(start, codes, i + 1);
        return Err(next.error);
      }
      dictionary, dictSize, w, result := next.value.dict, next.value.dictSize, next.value.w, next.value.out;
    }
    assert codes[..|codes|] == codes;
    var bytes := WriteBytes(result);
    r := Ok(bytes);
  }
}
