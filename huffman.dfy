/**
 * Huffman coding of a gray stream: a frequency table, a code tree built by
 * repeatedly merging two lightest nodes of a priority queue, a code table read
 * off the tree ('0' for a left edge, '1' for a right edge), the concatenated
 * codes of the input, and a decoder that walks the tree once per symbol.
 */
module HuffmanCoding {
  import opened Results
  import opened JavaInt

  datatype Option<T> = None | Some(value: T)

  /**
   * A `HuffmanNode`. A leaf holds a symbol and its frequency; an inner node
   * (whose `data` is -1 and is never read) holds both children and the sum of
   * their frequencies. A node with one child never occurs.
   */
  datatype Tree = Leaf(symbol: int, weight: nat) | Node(left: Tree, right: Tree, weight: nat)

  /** The exceptions `decode` can raise. */
  datatype HuffmanError = StringIndexOutOfBounds | ArrayIndexOutOfBounds | NullPointer | NegativeArraySize

  /**
   * How a tree that is a single leaf is coded. `EmptyCode` is the program:
   * the lone symbol gets the empty code and the decoder's walk consumes no
   * bit. `OneBitCode` is the repair: the lone symbol is coded "0" and the
   * decoder consumes one bit for it.
   */
  datatype LoneLeaf = EmptyCode | OneBitCode

  /** `HuffmanResult` without the compression ratio and the timing. */
  datatype HuffmanResult = HuffmanResult(encodedData: string, root: Option<Tree>, imageWidth: int, imageHeight: int)

  /** The symbols at the leaves of a tree, with multiplicity. */
  function Leaves(t: Tree): (m: multiset<int>)
    ensures |m| >= 1
  {
    match t
    case Leaf(s, _) => multiset{s}
    case Node(l, r, _) => Leaves(l) + Leaves(r)
  }

  /** The distinct values of a stream, the keys of its frequency map. */
  function Distinct(data: seq<int>): set<int>
  {
    set x | x in data
  }

  /**
   * The weights of a tree built for data: every leaf weighs its symbol's
   * number of occurrences and every inner node the sum of its children.
   */
  predicate Weighted(t: Tree, data: seq<int>)
  {
    match t
    case Leaf(s, w) => w == multiset(data)[s]
    case Node(l, r, w) => Weighted(l, data) && Weighted(r, data) && w == l.weight + r.weight
  }

  /** The sum of the weights of a forest. */
  function TotalWeight(nodes: seq<Tree>): nat
  {
    if nodes == [] then 0 else nodes[0].weight + TotalWeight(nodes[1..])
  }

  /** The leaf symbols of a forest, with multiplicity. */
  function ForestLeaves(nodes: seq<Tree>): multiset<int>
  {
    if nodes == [] then multiset{} else Leaves(nodes[0]) + ForestLeaves(nodes[1..])
  }

  /** The forest without the first occurrence of t. */
  function RemoveFirst(nodes: seq<Tree>, t: Tree): (r: seq<Tree>)
    requires t in nodes
    ensures |r| == |nodes| - 1
    ensures forall u :: u in r ==> u in nodes
  {
    if nodes[0] == t then nodes[1..] else [nodes[0]] + RemoveFirst(nodes[1..], t)
  }

  lemma {:induction false} RemoveFirstSums(nodes: seq<Tree>, t: Tree)
    requires t in nodes
    ensures TotalWeight(nodes) == t.weight + TotalWeight(RemoveFirst(nodes, t))
    ensures ForestLeaves(nodes) == Leaves(t) + ForestLeaves(RemoveFirst(nodes, t))
  {
    if nodes[0] != t {
      var rest := RemoveFirst(nodes[1..], t);
      RemoveFirstSums(nodes[1..], t);
      assert ([nodes[0]] + rest)[1..] == rest;
    }
  }

  lemma {:induction false} AppendSums(nodes: seq<Tree>, t: Tree)
    ensures TotalWeight(nodes + [t]) == TotalWeight(nodes) + t.weight
    ensures ForestLeaves(nodes + [t]) == ForestLeaves(nodes) + Leaves(t)
  {
    if nodes == [] {
      assert [t][1..] == [];
    } else {
      assert (nodes + [t])[1..] == nodes[1..] + [t];
      AppendSums(nodes[1..], t);
    }
  }

  /** A forest holding no leaf is empty. */
  lemma {:induction false} EmptyForest(nodes: seq<Tree>)
    requires ForestLeaves(nodes) == multiset{}
    ensures nodes == []
  {
  }

  /**
   * `PriorityQueue<HuffmanNode>` ordered by frequency. `Poll` returns some
   * node of least frequency; which of several such nodes is not promised.
   */
  class NodeQueue {
    var nodes: seq<Tree>

    constructor ()
      ensures nodes == []
    {
      nodes := [];
    }

    method Add(t: Tree)
      modifies this
      ensures nodes == old(nodes) + [t]
    {
      nodes := nodes + [t];
    }

    /** `poll()`: null on an empty queue, otherwise a least-frequency node, removed. */
    method Poll() returns (r: Option<Tree>)
      modifies this
      ensures old(nodes) == [] ==> r == None && nodes == []
      ensures old(nodes) != [] ==> r.Some? && r.value in old(nodes) && nodes == RemoveFirst(old(nodes), r.value)
      ensures old(nodes) != [] ==> forall u :: u in old(nodes) ==> r.value.weight <= u.weight
    {
      if nodes == [] {
        return None;
      }
      var m := 0;
      for i := 1 to |nodes|
        invariant 0 <= m < |nodes|
        invariant forall j :: 0 <= j < i ==> nodes[m].weight <= nodes[j].weight
      {
        if nodes[i].weight < nodes[m].weight {
          m := i;
        }
      }
      r := Some(nodes[m]);
      nodes := RemoveFirst(nodes, nodes[m]);
    }
  }

  /** The frequency-map loop of `encode`: `put(key, getOrDefault(key, 0) + 1)` for every input value. */
  method FrequencyTable(data: seq<int>) returns (freq: map<int, nat>)
    ensures forall k :: k in freq <==> k in data
    ensures forall k :: k in freq ==> freq[k] == multiset(data)[k]
  {
    freq := map[];
    for i := 0 to |data|
      invariant forall k :: k in freq <==> k in data[..i]
      invariant forall k :: k in freq ==> freq[k] == multiset(data[..i])[k]
    {
      var key := data[i];
      var count := if key in freq then freq[key] else 0;
      freq := freq[key := count + 1];
      assert data[..i + 1] == data[..i] + [key];
    }
    assert data[..|data|] == data;
  }

  /** The number of positions of data that hold one of keys. */
  function CountIn(data: seq<int>, keys: set<int>): nat
  {
    if data == [] then 0 else CountIn(data[..|data| - 1], keys) + (if data[|data| - 1] in keys then 1 else 0)
  }

  lemma {:induction false} CountInRemove(data: seq<int>, keys: set<int>, k: int)
    requires k in keys
    ensures CountIn(data, keys) == CountIn(data, keys - {k}) + multiset(data)[k]
  {
    if data != [] {
      var init := data[..|data| - 1];
      assert data == init + [data[|data| - 1]];
      CountInRemove(init, keys, k);
    }
  }

  lemma {:induction false} CountInAll(data: seq<int>, keys: set<int>)
    requires forall x :: x in data ==> x in keys
    ensures CountIn(data, keys) == |data|
  {
    if data != [] {
      var init := data[..|data| - 1];
      assert forall x :: x in init ==> x in data;
      var last := data[|data| - 1];
      assert last in data;
      CountInAll(init, keys);
    }
  }

  lemma {:induction false} CountInNone(data: seq<int>)
    ensures CountIn(data, {}) == 0
  {
    if data != [] {
      CountInNone(data[..|data| - 1]);
    }
  }

  /** A set that is not empty has a member. */
  lemma {:induction false} HasMember(s: set<int>)
    requires s != {}
    ensures exists x :: x in s
  {
    if forall x :: x !in s {
      assert false;
    }
  }

  /** The next key of a `HashMap` iteration: some key not yet visited, in no promised order. */
  method AnyKey(keys: set<int>) returns (key: int)
    requires keys != {}
    ensures key in keys
  {
    HasMember(keys);
    key :| key in keys;
  }

  /**
   * `frequencyMap.forEach(... queue.add(new HuffmanNode(key, value)))`: one
   * leaf per map entry, in the map's unspecified iteration order. The
   * frequencies add up to the input length.
   */
  method InitialQueue(data: seq<int>, freq: map<int, nat>) returns (queue: NodeQueue)
    requires forall k :: k in freq <==> k in data
    requires forall k :: k in freq ==> freq[k] == multiset(data)[k]
    ensures fresh(queue)
    ensures TotalWeight(queue.nodes) == |data|
    ensures ForestLeaves(queue.nodes) == multiset(Distinct(data))
    ensures forall t :: t in queue.nodes ==> t.Leaf? && Weighted(t, data)
  {
    queue := new NodeQueue();
    var keys := freq.Keys;
    assert keys == Distinct(data) by {
      forall x
        ensures x in keys <==> x in Distinct(data)
      {
      }
    }
    CountInAll(data, keys);
    while keys != {}
      invariant keys <= freq.Keys
      invariant TotalWeight(queue.nodes) + CountIn(data, keys) == |data|
      invariant ForestLeaves(queue.nodes) + multiset(keys) == multiset(Distinct(data))
      invariant forall t :: t in queue.nodes ==> t.Leaf? && Weighted(t, data)
      decreases |keys|
    {
      var key := AnyKey(keys);
      var leaf := Leaf(key, freq[key]);
      LeafKeeps(data, queue.nodes, keys, leaf);
      queue.Add(leaf);
      keys := keys - {key};
    }
    CountInNone(data);
  }

  /** Adding the leaf of one remaining key moves its count and its symbol from the keys to the queue. */
  lemma LeafKeeps(data: seq<int>, nodes: seq<Tree>, keys: set<int>, leaf: Tree)
    requires leaf.Leaf? && leaf.symbol in keys && leaf.weight == multiset(data)[leaf.symbol]
    requires TotalWeight(nodes) + CountIn(data, keys) == |data|
    requires ForestLeaves(nodes) + multiset(keys) == multiset(Distinct(data))
    ensures TotalWeight(nodes + [leaf]) + CountIn(data, keys - {leaf.symbol}) == |data|
    ensures ForestLeaves(nodes + [leaf]) + multiset(keys - {leaf.symbol}) == multiset(Distinct(data))
    ensures Weighted(leaf, data)
  {
    var key := leaf.symbol;
    AppendSums(nodes, leaf);
    CountInRemove(data, keys, key);
    assert multiset(keys) == multiset(keys - {key}) + multiset{key};
  }

  /** What the queue holds between merges: a forest for data with all of its leaves. */
  predicate QueueInvariant(nodes: seq<Tree>, data: seq<int>)
  {
    && TotalWeight(nodes) == |data|
    && ForestLeaves(nodes) == multiset(Distinct(data))
    && forall t :: t in nodes ==> Weighted(t, data)
  }

  /** Replacing two nodes of the forest by their parent keeps the invariant. */
  lemma {:induction false} MergeKeeps(nodes: seq<Tree>, left: Tree, right: Tree, data: seq<int>)
    requires QueueInvariant(nodes, data)
    requires left in nodes && right in RemoveFirst(nodes, left)
    ensures QueueInvariant(RemoveFirst(RemoveFirst(nodes, left), right) + [Node(left, right, left.weight + right.weight)], data)
  {
    var between := RemoveFirst(nodes, left);
    var after := RemoveFirst(between, right);
    var parent := Node(left, right, left.weight + right.weight);
    RemoveFirstSums(nodes, left);
    RemoveFirstSums(between, right);
    AppendSums(after, parent);
    Regroup(Leaves(left), Leaves(right), ForestLeaves(after));
    assert Weighted(left, data) && Weighted(right, data);
    AppendWeighted(after, parent, data);
  }

  lemma Regroup(l: multiset<int>, r: multiset<int>, f: multiset<int>)
    ensures l + (r + f) == f + (l + r)
  {
  }

  lemma AppendWeighted(nodes: seq<Tree>, t: Tree, data: seq<int>)
    requires forall u :: u in nodes ==> Weighted(u, data)
    requires Weighted(t, data)
    ensures forall u :: u in nodes + [t] ==> Weighted(u, data)
  {
    forall u | u in nodes + [t]
      ensures Weighted(u, data)
    {
      if u != t {
        assert u in nodes;
      }
    }
  }

  lemma NoDistinctValues()
    ensures multiset(Distinct([])) == multiset{}
  {
    assert Distinct([]) == {};
  }

  /** When the merging stops, the queue holds no node exactly when the input is empty, and otherwise one. */
  lemma {:induction false} MergedQueue(nodes: seq<Tree>, data: seq<int>)
    requires QueueInvariant(nodes, data) && |nodes| <= 1
    ensures nodes == [] <==> data == []
    ensures nodes != [] ==> nodes == [nodes[0]] && nodes[0].weight == |data| && Leaves(nodes[0]) == multiset(Distinct(data))
  {
    if nodes != [] {
      if data == [] {
        NoDistinctValues();
        assert false;
      }
      assert nodes[1..] == [];
      assert TotalWeight(nodes[1..]) == 0 && ForestLeaves(nodes[1..]) == multiset{};
    }
  }

  /**
   * The tree-building part of `encode`: while the queue holds more than one
   * node, poll two lightest nodes and add their parent. The root is null for
   * empty input; otherwise its leaves are the distinct input values, each
   * once, weighted by its frequency, and the root weighs the input length.
   */
  method BuildTree(data: seq<int>) returns (root: Option<Tree>)
    ensures root.None? <==> data == []
    ensures root.Some? ==> root.value.weight == |data|
    ensures root.Some? ==> Leaves(root.value) == multiset(Distinct(data))
    ensures root.Some? ==> Weighted(root.value, data)
  {
    var freq := FrequencyTable(data);
    var queue := InitialQueue(data, freq);
    while |queue.nodes| > 1
      invariant QueueInvariant(queue.nodes, data)
      decreases |queue.nodes|
    {
      MergeLightest(queue, data);
    }
    MergedQueue(queue.nodes, data);
    root := queue.Poll();
  }

  /**
   * One pass of the merging loop: poll two lightest nodes and add their
   * parent, whose weight is the sum of theirs. The queue shrinks by one and
   * keeps the invariant.
   */
  method MergeLightest(queue: NodeQueue, ghost data: seq<int>)
    requires |queue.nodes| > 1 && QueueInvariant(queue.nodes, data)
    modifies queue
    ensures |queue.nodes| == |old(queue.nodes)| - 1
    ensures QueueInvariant(queue.nodes, data)
  {
    ghost var before := queue.nodes;
    var left := queue.Poll();
    var right := queue.Poll();
    MergeKeeps(before, left.value, right.value, data);
    var parent := Node(left.value, right.value, left.value.weight + right.value.weight);
    queue.Add(parent);
  }

  /**
   * `generateCodes(node, prefix, table)` as a value: each leaf's symbol
   * mapped to prefix followed by its path from t, '0' for left and '1' for
   * right. A symbol at two leaves keeps the later (right) code, as the later
   * `put` wins.
   */
  function Codes(t: Tree, prefix: string): map<int, string>
  {
    match t
    case Leaf(s, _) => map[s := prefix]
    case Node(l, r, _) => Codes(l, prefix + "0") + Codes(r, prefix + "1")
  }

  /**
   * The path from t to the leaf of x whose code the table keeps (the
   * rightmost leaf of x), or None when no leaf holds x.
   */
  function Path(t: Tree, x: int): (r: Option<string>)
    ensures r.Some? <==> x in Leaves(t)
    ensures r.Some? && t.Node? ==> |r.value| >= 1
  {
    match t
    case Leaf(s, _) => if s == x then Some("") else None
    case Node(l, r, _) =>
      if Path(r, x).Some? then Some("1" + Path(r, x).value)
      else if Path(l, x).Some? then Some("0" + Path(l, x).value)
      else None
  }

  /** The table holds x exactly when a leaf does, with the prefix followed by its path. */
  lemma {:induction false} CodesPath(t: Tree, prefix: string, x: int)
    ensures x in Codes(t, prefix) <==> Path(t, x).Some?
    ensures x in Codes(t, prefix) ==> Codes(t, prefix)[x] == prefix + Path(t, x).value
  {
    if t.Leaf? {
      assert prefix + "" == prefix;
    } else {
      var p0, p1 := prefix + "0", prefix + "1";
      var left, right := Codes(t.left, p0), Codes(t.right, p1);
      CodesPath(t.left, p0, x);
      CodesPath(t.right, p1, x);
      if x in right {
        CodeOfPath(p1, '1', Path(t.right, x).value, prefix);
      } else if x in left {
        CodeOfPath(p0, '0', Path(t.left, x).value, prefix);
      }
    }
  }

  lemma {:induction false} CodeOfPath(q: string, b: char, p: string, prefix: string)
    requires q == prefix + [b]
    ensures q + p == prefix + ([b] + p)
  {
  }

  /** The table `encode` uses: empty for a null root, "" or "0" for a lone leaf. */
  function CodeTable(root: Option<Tree>, lone: LoneLeaf): map<int, string>
  {
    match root
    case None => map[]
    case Some(Leaf(s, _)) => map[s := if lone == OneBitCode then "0" else ""]
    case Some(t) => Codes(t, "")
  }

  /** No code of the table is a prefix of the code of another symbol. */
  predicate PrefixFree(codes: map<int, string>)
  {
    forall a, b :: a in codes && b in codes && a != b ==> !(codes[a] <= codes[b])
  }

  /** The kept paths of two different symbols are not prefixes of each other. */
  lemma {:induction false} PathsPrefixFree(t: Tree, a: int, b: int)
    requires a != b && Path(t, a).Some? && Path(t, b).Some?
    ensures !(Path(t, a).value <= Path(t, b).value)
  {
    if t.Node? {
      var pa, pb := Path(t, a).value, Path(t, b).value;
      if Path(t.right, a).Some? && Path(t.right, b).Some? {
        PathsPrefixFree(t.right, a, b);
        ConsPrefix('1', Path(t.right, a).value, Path(t.right, b).value);
      } else if Path(t.right, a).Some? || Path(t.right, b).Some? {
        assert pa[0] != pb[0];
      } else {
        PathsPrefixFree(t.left, a, b);
        ConsPrefix('0', Path(t.left, a).value, Path(t.left, b).value);
      }
    }
  }

  lemma {:induction false} ConsPrefix(c: char, x: string, y: string)
    ensures ([c] + x <= [c] + y) == (x <= y)
  {
    if [c] + x <= [c] + y {
      assert forall j :: 0 <= j < |x| ==> x[j] == ([c] + x)[j + 1];
      assert forall j :: 0 <= j < |y| ==> y[j] == ([c] + y)[j + 1];
    }
  }

  lemma {:induction false} CommonPrefix(p: string, x: string, y: string)
    ensures (p + x <= p + y) == (x <= y)
  {
    if p + x <= p + y {
      assert forall j :: 0 <= j < |x| ==> x[j] == (p + x)[|p| + j];
      assert forall j :: 0 <= j < |y| ==> y[j] == (p + y)[|p| + j];
    }
  }

  /** The code table of any tree is prefix-free. */
  lemma {:induction false} CodesPrefixFree(t: Tree, prefix: string)
    ensures PrefixFree(Codes(t, prefix))
  {
    var codes := Codes(t, prefix);
    forall a, b | a in codes && b in codes && a != b
      ensures !(codes[a] <= codes[b])
    {
      CodesPath(t, prefix, a);
      CodesPath(t, prefix, b);
      PathsPrefixFree(t, a, b);
      CommonPrefix(prefix, Path(t, a).value, Path(t, b).value);
    }
  }

  /** The table `encode` builds is prefix-free, whatever the tree. */
  lemma {:induction false} CodeTablePrefixFree(root: Option<Tree>, lone: LoneLeaf)
    ensures PrefixFree(CodeTable(root, lone))
  {
    if root.Some? && root.value.Node? {
      CodesPrefixFree(root.value, "");
    }
  }

  /**
   * The encoding loop of `encode`: the codes of the input values appended in
   * order; `get` of a value outside the table would append "null".
   */
  function Encoded(codes: map<int, string>, data: seq<int>): string
  {
    if data == [] then ""
    else
      var last := data[|data| - 1];
      Encoded(codes, data[..|data| - 1]) + (if last in codes then codes[last] else "null")
  }

  /** The encoding of a prefix of the input is a prefix of the encoding. */
  lemma {:induction false} EncodedPrefix(codes: map<int, string>, data: seq<int>, k: nat)
    requires k <= |data|
    ensures Encoded(codes, data[..k]) <= Encoded(codes, data)
    decreases |data|
  {
    if k < |data| {
      var init := data[..|data| - 1];
      assert data[..k] == init[..k];
      EncodedPrefix(codes, init, k);
    } else {
      assert data[..k] == data;
    }
  }

  /** The number of characters `append(huffmanCodes.get(x))` adds for x: its code, or "null". */
  function CodeLength(codes: map<int, string>, x: int): nat
  {
    if x in codes then |codes[x]| else 4
  }

  /** The characters the positions of data holding one of keys contribute to the encoding. */
  function CodedLength(codes: map<int, string>, data: seq<int>, keys: set<int>): nat
  {
    if data == [] then 0
    else
      var last := data[|data| - 1];
      CodedLength(codes, data[..|data| - 1], keys) + (if last in keys then CodeLength(codes, last) else 0)
  }

  /** The encoding is as long as the contributions of the input's own values. */
  lemma {:induction false} EncodedLength(codes: map<int, string>, data: seq<int>, keys: set<int>)
    requires forall x :: x in data ==> x in keys
    ensures |Encoded(codes, data)| == CodedLength(codes, data, keys)
  {
    if data != [] {
      var init := data[..|data| - 1];
      assert forall x :: x in init ==> x in data;
      var last := data[|data| - 1];
      assert last in data;
      EncodedLength(codes, init, keys);
    }
  }

  /**
   * A symbol k of keys contributes its frequency times its code length, so the
   * encoding's length is the sum over the distinct symbols of frequency times
   * code length.
   */
  lemma {:induction false} CodedLengthRemove(codes: map<int, string>, data: seq<int>, keys: set<int>, k: int)
    requires k in keys
    ensures CodedLength(codes, data, keys) == CodedLength(codes, data, keys - {k}) + multiset(data)[k] * CodeLength(codes, k)
  {
    if data != [] {
      var init := data[..|data| - 1];
      var last := data[|data| - 1];
      CodedLengthRemove(codes, init, keys, k);
      MultiplicitySnoc(data, k);
      if last == k {
        OneMoreCode(CodedLength(codes, init, keys), CodedLength(codes, init, keys - {k}), multiset(init)[k], CodeLength(codes, k));
      }
    }
  }

  /** The multiplicity of k grows by one with an appended k and stays otherwise. */
  lemma MultiplicitySnoc(data: seq<int>, k: int)
    requires data != []
    ensures multiset(data)[k] == multiset(data[..|data| - 1])[k] + (if data[|data| - 1] == k then 1 else 0)
  {
    assert data == data[..|data| - 1] + [data[|data| - 1]];
  }

  /** One more occurrence of a symbol adds one more code length. */
  lemma OneMoreCode(total: int, rest: int, m: int, length: int)
    requires total == rest + m * length
    ensures total + length == rest + (m + 1) * length
  {
  }

  /** No symbol, no characters. */
  lemma {:induction false} CodedLengthNone(codes: map<int, string>, data: seq<int>)
    ensures CodedLength(codes, data, {}) == 0
  {
    if data != [] {
      CodedLengthNone(codes, data[..|data| - 1]);
    }
  }

  /**
   * `encode(imageData, width, height)` without ratio and timing: builds the
   * tree and the table and concatenates the codes of the input in order.
   */
  method Encode(data: seq<int>, width: int, height: int, lone: LoneLeaf) returns (result: HuffmanResult)
    ensures result.imageWidth == width && result.imageHeight == height
    ensures result.root.None? <==> data == []
    ensures result.root.Some? ==> result.root.value.weight == |data|
    ensures result.root.Some? ==> Leaves(result.root.value) == multiset(Distinct(data))
    ensures result.root.Some? ==> Weighted(result.root.value, data)
    ensures result.encodedData == Encoded(CodeTable(result.root, lone), data)
  {
    var root := BuildTree(data);
    var codes := CodeTable(root, lone);
    var encoded := "";
    for i := 0 to |data|
      invariant encoded == Encoded(codes, data[..i])
    {
      var key := data[i];
      assert data[..i + 1][..i] == data[..i];
      encoded := encoded + (if key in codes then codes[key] else "null");
    }
    assert data[..|data|] == data;
    result := HuffmanResult(encoded, root, width, height);
  }

  /**
   * The inner `while` of `decode`: from node t, consume bits from position i
   * ('0' goes left, any other character right) until a leaf; reading past
   * the end of the string fails.
   */
  function Walk(t: Tree, bits: string, i: nat): (r: Result<(int, nat), HuffmanError>)
    requires i <= |bits|
    ensures r.Ok? ==> i <= r.value.1 <= |bits|
    ensures r.Ok? && t.Node? ==> r.value.1 > i
    ensures r.Err? ==> r.error == StringIndexOutOfBounds
  {
    match t
    case Leaf(s, _) => Ok((s, i))
    case Node(l, r, _) =>
      if i == |bits| then Err(StringIndexOutOfBounds)
      else Walk(if bits[i] == '0' then l else r, bits, i + 1)
  }

  /** One symbol read from the root; a lone leaf consumes a bit only under `OneBitCode`. */
  function NextSymbol(root: Tree, bits: string, i: nat, lone: LoneLeaf): (r: Result<(int, nat), HuffmanError>)
    requires i < |bits|
    ensures r.Ok? ==> i <= r.value.1 <= |bits|
    ensures r.Ok? && (root.Node? || lone == OneBitCode) ==> r.value.1 > i
  {
    if root.Leaf? && lone == OneBitCode then Ok((root.symbol, i + 1)) else Walk(root, bits, i)
  }

  /**
   * One pass of the inner `while` of `decode`: walk from the root until a
   * leaf (under `OneBitCode` a lone leaf also consumes one bit).
   */
  method ReadSymbol(root: Tree, bits: string, i: nat, lone: LoneLeaf) returns (r: Result<(int, nat), HuffmanError>)
    requires i < |bits|
    ensures r == NextSymbol(root, bits, i, lone)
  {
    var current := root;
    var j := i;
    while current.Node?
      invariant i <= j <= |bits|
      invariant Walk(root, bits, i) == Walk(current, bits, j)
      invariant current == root || j > i
      decreases current
    {
      if j == |bits| {
        return Err(StringIndexOutOfBounds);
      }
      current := if bits[j] == '0' then current.left else current.right;
      j := j + 1;
    }
    if root.Leaf? && lone == OneBitCode {
      j := j + 1;
    }
    r := Ok((current.symbol, j));
  }

  /** A zero-filled `int[n]`. */
  function Zeros(n: nat): (r: seq<int>)
    ensures |r| == n && forall k :: 0 <= k < n ==> r[k] == 0
  {
    seq(n, _ => 0)
  }

  /**
   * The outcome of the decoding loop from bit i with the symbols acc already
   * written into an array of size slots. A walk that makes no progress (a
   * lone leaf under `EmptyCode`) rewrites the same symbol until the array
   * overflows.
   */
  function DecodeFrom(root: Tree, bits: string, i: nat, acc: seq<int>, size: nat, lone: LoneLeaf): Result<seq<int>, HuffmanError>
    requires i <= |bits| && |acc| <= size
    decreases |bits| - i
  {
    if i == |bits| then Ok(acc + Zeros(size - |acc|))
    else match NextSymbol(root, bits, i, lone)
      case Err(e) => Err(e)
      case Ok((s, j)) =>
        if |acc| == size || j == i then Err(ArrayIndexOutOfBounds)
        else DecodeFrom(root, bits, j, acc + [s], size, lone)
  }

  /** What `decode(result)` returns or throws. */
  function DecodeSpec(result: HuffmanResult, lone: LoneLeaf): Result<seq<int>, HuffmanError>
  {
    var size := Wrap32(result.imageWidth * result.imageHeight);
    if size < 0 then Err(NegativeArraySize)
    else if |result.encodedData| == 0 then Ok(Zeros(size))
    else if result.root.None? then Err(NullPointer)
    else DecodeFrom(result.root.value, result.encodedData, 0, [], size, lone)
  }

  /**
   * `decode(result)`: an `int[width * height]` filled with one symbol per
   * walk from the root, restarting at the root after every leaf.
   */
  method Decode(result: HuffmanResult, lone: LoneLeaf) returns (r: Result<seq<int>, HuffmanError>)
    ensures r == DecodeSpec(result, lone)
  {
    var encodedData := result.encodedData;
    var size := Wrap32(result.imageWidth * result.imageHeight);
    if size < 0 {
      return Err(NegativeArraySize);
    }
    var decodedData := new int[size](_ => 0);
    if |encodedData| == 0 {
      assert decodedData[..] == Zeros(size);
      return Ok(decodedData[..]);
    }
    if result.root.None? {
      return Err(NullPointer);
    }
    var root := result.root.value;
    ghost var goal := DecodeFrom(root, encodedData, 0, [], size, lone);
    var index := 0;
    var i := 0;
    while i < |encodedData|
      invariant 0 <= i <= |encodedData| && 0 <= index <= size
      invariant DecodeFrom(root, encodedData, i, decodedData[..index], size, lone) == goal
      invariant forall k :: index <= k < size ==> decodedData[k] == 0
      decreases size - index
    {
      var next := ReadSymbol(root, encodedData, i, lone);
      if next.Err? {
        return Err(next.error);
      }
      if index == size {
        return Err(ArrayIndexOutOfBounds);
      }
      var symbol := next.value.0;
      ghost var acc := decodedData[..index];
      decodedData[index] := symbol;
      index := index + 1;
      assert decodedData[..index] == acc + [symbol];
      i := next.value.1;
    }
    assert decodedData[..] == decodedData[..index] + Zeros(size - index);
    r := Ok(decodedData[..]);
  }

  /** The string holds code c at position i. */
  predicate MatchesAt(bits: string, i: nat, c: string)
  {
    i + |c| <= |bits| && bits[i..i + |c|] == c
  }

  /** Walking a tree along the kept path p of x reaches a leaf of x at the end of p. */
  lemma {:induction false} WalkPath(t: Tree, x: int, p: string, bits: string, i: nat, end: nat)
    requires Path(t, x) == Some(p) && MatchesAt(bits, i, p) && end == i + |p|
    ensures Walk(t, bits, i) == Ok((x, end))
    decreases t, 1
  {
    match t
    case Leaf(s, _) =>
      assert s == x && p == "";
    case Node(l, r, _) =>
      WalkNode(t, x, p, bits, i, end);
  }

  /** At a node the path goes right when x is a leaf on the right, and left otherwise. */
  lemma {:induction false} WalkNode(t: Tree, x: int, p: string, bits: string, i: nat, end: nat)
    requires t.Node? && Path(t, x) == Some(p) && MatchesAt(bits, i, p) && end == i + |p|
    ensures Walk(t, bits, i) == Ok((x, end))
    decreases t, 0
  {
    var b, q, child := PathSplit(t, x, p);
    WalkStep(t, bits, i, p, b, q, child);
    WalkPath(child, x, q, bits, i + 1, end);
  }

  /** A node's path is its first bit, 1 when x is a leaf on the right, followed by the path in that child. */
  lemma PathSplit(t: Tree, x: int, p: string) returns (b: char, q: string, child: Tree)
    requires t.Node? && Path(t, x) == Some(p)
    ensures (b == '0' || b == '1') && p == [b] + q
    ensures child == (if b == '0' then t.left else t.right) && Path(child, x) == Some(q)
  {
    if Path(t.right, x).Some? {
      b, q, child := '1', Path(t.right, x).value, t.right;
    } else {
      b, q, child := '0', Path(t.left, x).value, t.left;
    }
  }

  /** At a node, a path starting with bit b held at i sends the walk into b's child. */
  lemma {:induction false} WalkStep(t: Tree, bits: string, i: nat, p: string, b: char, q: string, child: Tree)
    requires t.Node? && p == [b] + q && (b == '0' || b == '1') && MatchesAt(bits, i, p)
    requires child == (if b == '0' then t.left else t.right)
    ensures i < |bits| && MatchesAt(bits, i + 1, q) && |p| == 1 + |q|
    ensures Walk(t, bits, i) == Walk(child, bits, i + 1)
  {
    MatchesRest(bits, i, b, q);
  }

  /** A code that starts with bit b, held at position i: b is at i and the rest follows. */
  lemma {:induction false} MatchesRest(bits: string, i: nat, b: char, q: string)
    requires MatchesAt(bits, i, [b] + q)
    ensures i < |bits| && bits[i] == b && MatchesAt(bits, i + 1, q)
  {
    var held := bits[i..i + 1 + |q|];
    assert held[0] == bits[i] && held[1..] == bits[i + 1..i + 1 + |q|];
    assert ([b] + q)[0] == b && ([b] + q)[1..] == q;
  }

  /** Reading from the root at the start of a symbol's code yields that symbol and skips its code. */
  lemma {:induction false} NextSymbolOfCode(root: Tree, lone: LoneLeaf, x: int, bits: string, i: nat)
    requires root.Node? || lone == OneBitCode
    requires x in Leaves(root) && i <= |bits|
    ensures x in CodeTable(Some(root), lone) && |CodeTable(Some(root), lone)[x]| >= 1
    ensures MatchesAt(bits, i, CodeTable(Some(root), lone)[x]) ==>
              i < |bits| && NextSymbol(root, bits, i, lone) == Ok((x, i + |CodeTable(Some(root), lone)[x]|))
  {
    if root.Node? {
      CodesPath(root, "", x);
      assert "" + Path(root, x).value == Path(root, x).value;
      if MatchesAt(bits, i, CodeTable(Some(root), lone)[x]) {
        WalkPath(root, x, Path(root, x).value, bits, i, i + |CodeTable(Some(root), lone)[x]|);
      }
    }
  }

  /** Appending one value appends its code. */
  lemma {:induction false} EncodedStep(codes: map<int, string>, data: seq<int>, k: nat)
    requires k < |data| && data[k] in codes
    ensures Encoded(codes, data[..k + 1]) == Encoded(codes, data[..k]) + codes[data[k]]
  {
    assert data[..k + 1][..k] == data[..k];
  }

  /** A string that starts with a + c holds c right after a. */
  lemma {:induction false} PrefixMatches(bits: string, a: string, c: string)
    requires a + c <= bits
    ensures MatchesAt(bits, |a|, c)
  {
    assert bits[..|a| + |c|] == a + c;
    assert bits[|a|..|a| + |c|] == (a + c)[|a|..];
  }

  /**
   * Decoding the encoding of data from the end of the codes of its first k
   * values, with those values written, writes the rest.
   */
  lemma {:induction false} RoundTripFrom(data: seq<int>, root: Tree, lone: LoneLeaf, codes: map<int, string>, bits: string, size: nat, k: nat)
    requires root.Node? || lone == OneBitCode
    requires codes == CodeTable(Some(root), lone) && bits == Encoded(codes, data)
    requires forall j :: 0 <= j < |data| ==> data[j] in Leaves(root)
    requires k <= |data| <= size
    ensures |Encoded(codes, data[..k])| <= |bits|
    ensures DecodeFrom(root, bits, |Encoded(codes, data[..k])|, data[..k], size, lone) == Ok(data + Zeros(size - |data|))
    decreases |data| - k
  {
    EncodedPrefix(codes, data, k);
    if k == |data| {
      TakeAll(data);
      DecodeEnd(root, bits, data, size, lone);
    } else {
      RoundTripStep(data, root, lone, codes, bits, size, k);
      RoundTripFrom(data, root, lone, codes, bits, size, k + 1);
    }
  }

  /** Decoding from the end of the codes of the first k values reads value k and moves to the end of its code. */
  lemma RoundTripStep(data: seq<int>, root: Tree, lone: LoneLeaf, codes: map<int, string>, bits: string, size: nat, k: nat)
    requires root.Node? || lone == OneBitCode
    requires codes == CodeTable(Some(root), lone) && bits == Encoded(codes, data)
    requires k < |data| <= size && data[k] in Leaves(root)
    ensures |Encoded(codes, data[..k])| < |Encoded(codes, data[..k + 1])| <= |bits|
    ensures DecodeFrom(root, bits, |Encoded(codes, data[..k])|, data[..k], size, lone)
      == DecodeFrom(root, bits, |Encoded(codes, data[..k + 1])|, data[..k + 1], size, lone)
  {
    var x := data[k];
    var i := |Encoded(codes, data[..k])|;
    var j := |Encoded(codes, data[..k + 1])|;
    EncodedPrefix(codes, data, k);
    EncodedPrefix(codes, data, k + 1);
    NextSymbolOfCode(root, lone, x, bits, i);
    EncodedStepMatch(codes, data, k);
    assert NextSymbol(root, bits, i, lone) == Ok((x, j));
    DecodeStep(root, lone, bits, i, data[..k], size, x, j);
    TakeNext(data, k);
  }

  lemma TakeAll(data: seq<int>)
    ensures data[..|data|] == data
  {
  }

  lemma TakeNext(data: seq<int>, k: nat)
    requires k < |data|
    ensures data[..k] + [data[k]] == data[..k + 1]
  {
  }

  /** Decoding ends at the end of the bits, with the rest of the array zero. */
  lemma DecodeEnd(root: Tree, bits: string, acc: seq<int>, size: nat, lone: LoneLeaf)
    requires |acc| <= size
    ensures DecodeFrom(root, bits, |bits|, acc, size, lone) == Ok(acc + Zeros(size - |acc|))
  {
  }

  /** One more value of the input extends its encoding by that value's code, which the whole encoding holds there. */
  lemma {:induction false} EncodedStepMatch(codes: map<int, string>, data: seq<int>, k: nat)
    requires k < |data| && data[k] in codes
    ensures |Encoded(codes, data[..k + 1])| == |Encoded(codes, data[..k])| + |codes[data[k]]|
    ensures MatchesAt(Encoded(codes, data), |Encoded(codes, data[..k])|, codes[data[k]])
  {
    EncodedStep(codes, data, k);
    EncodedPrefix(codes, data, k + 1);
    PrefixMatches(Encoded(codes, data), Encoded(codes, data[..k]), codes[data[k]]);
  }

  /** A symbol read with room left in the array is written, and decoding goes on after it. */
  lemma {:induction false} DecodeStep(root: Tree, lone: LoneLeaf, bits: string, i: nat, acc: seq<int>, size: nat, x: int, j: nat)
    requires i < j <= |bits| && |acc| < size
    requires NextSymbol(root, bits, i, lone) == Ok((x, j))
    ensures DecodeFrom(root, bits, i, acc, size, lone) == DecodeFrom(root, bits, j, acc + [x], size, lone)
  {
  }

  /**
   * Decoding what `encode` produced gives the input back when the table
   * codes every symbol with at least one bit: under `OneBitCode` always, and
   * as written when the input holds two distinct values.
   */
  lemma {:induction false} RoundTrip(data: seq<int>, root: Tree, lone: LoneLeaf, width: int, height: int)
    requires Leaves(root) == multiset(Distinct(data))
    requires lone == OneBitCode || exists a, b :: 0 <= a < b < |data| && data[a] != data[b]
    requires width >= 0 && height >= 0 && width * height == |data| < Two31
    ensures DecodeSpec(HuffmanResult(Encoded(CodeTable(Some(root), lone), data), Some(root), width, height), lone) == Ok(data)
  {
    DataInLeaves(data, root);
    if lone == EmptyCode {
      TwoValuesNode(data, root);
    }
    var codes := CodeTable(Some(root), lone);
    var bits := Encoded(codes, data);
    RoundTripFrom(data, root, lone, codes, bits, |data|, 0);
    assert data[..0] == [];
    assert data + Zeros(0) == data;
    DecodeSpecFrom(root, bits, width, height, |data|, lone);
  }

  /** A tree whose leaves are the distinct values of data has a leaf for each value. */
  lemma DataInLeaves(data: seq<int>, root: Tree)
    requires Leaves(root) == multiset(Distinct(data))
    ensures forall j :: 0 <= j < |data| ==> data[j] in Leaves(root)
  {
    forall j | 0 <= j < |data|
      ensures data[j] in Leaves(root)
    {
      var x := data[j];
      assert x in data;
      assert x in Distinct(data);
    }
  }

  /** The tree of an input with two distinct values is not a lone leaf. */
  lemma TwoValuesNode(data: seq<int>, root: Tree)
    requires Leaves(root) == multiset(Distinct(data))
    requires exists a, b :: 0 <= a < b < |data| && data[a] != data[b]
    ensures root.Node?
  {
    var a, b :| 0 <= a < b < |data| && data[a] != data[b];
    assert data[a] in Distinct(data) && data[b] in Distinct(data);
    assert data[a] in Leaves(root) && data[b] in Leaves(root);
    if root.Leaf? {
      assert false;
    }
  }

  /** For an array size below 2^31, `decode` is the decoding from the start with nothing written. */
  lemma DecodeSpecFrom(root: Tree, bits: string, width: int, height: int, size: nat, lone: LoneLeaf)
    requires width * height == size < Two31
    ensures DecodeSpec(HuffmanResult(bits, Some(root), width, height), lone) == DecodeFrom(root, bits, 0, [], size, lone)
  {
    if |bits| == 0 {
      DecodeEnd(root, bits, [], size, lone);
      assert [] + Zeros(size - 0) == Zeros(size);
    }
  }

  /** A table mapping every input value to the empty code encodes to the empty string. */
  lemma {:induction false} EncodedEmpty(codes: map<int, string>, data: seq<int>)
    requires forall j :: 0 <= j < |data| ==> data[j] in codes && codes[data[j]] == ""
    ensures Encoded(codes, data) == ""
  {
    if data != [] {
      EncodedEmpty(codes, data[..|data| - 1]);
    }
  }

  /**
   * As written, an input of one repeated value s gets a lone-leaf tree, the
   * empty code and the empty encoding, and decodes to zeros: not the input
   * unless s is 0.
   */
  lemma {:induction false} LoneSymbolAsWritten(data: seq<int>, s: int, root: Tree, width: int, height: int)
    requires data != [] && forall j :: 0 <= j < |data| ==> data[j] == s
    requires Leaves(root) == multiset(Distinct(data))
    requires width >= 0 && height >= 0 && width * height == |data| < Two31
    ensures root == Leaf(s, root.weight)
    ensures Encoded(CodeTable(Some(root), EmptyCode), data) == ""
    ensures DecodeSpec(HuffmanResult("", Some(root), width, height), EmptyCode) == Ok(Zeros(|data|))
    ensures s != 0 ==> Zeros(|data|) != data
  {
    assert Distinct(data) == {s} by {
      forall x
        ensures x in Distinct(data) <==> x == s
      {
        if x == s {
          var first := data[0];
          assert first in data;
        }
      }
    }
    if root.Node? {
      assert false;
    }
    assert root.symbol in multiset{s};
    EncodedEmpty(CodeTable(Some(root), EmptyCode), data);
    if s != 0 {
      assert Zeros(|data|)[0] != data[0];
    }
  }
}
