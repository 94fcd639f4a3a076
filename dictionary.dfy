/**
 * The state of a Map as a value, and what each of its operations does to
 * that value. The class in HashTable is proved to follow these functions.
 */
module Dictionary {
  import opened Options
  import opened CStrings
  import opened Hashing
  import opened Chains

  const DEFAULT_CAPACITY: nat := 50001

  /** The fields of a Map: the bucket array, `size` and `capacity`. */
  datatype Table = Table(buckets: seq<seq<Node>>, size: nat, capacity: nat)

  /**
   * What every Map keeps true: one bucket per slot, `size` counts the nodes
   * and stays within `capacity` (the load factor is 1), each non-empty chain
   * starts with a node of its own slot, and every node is as put() made it.
   */
  ghost predicate Valid(t: Table) {
    && t.capacity > 0
    && |t.buckets| == t.capacity
    && t.size <= t.capacity
    && t.size == |Flatten(t.buckets)|
    && HeadsPlaced(t.buckets, t.capacity)
    && BucketsWF(t.buckets)
  }

  /** Map::Map(): DEFAULT_CAPACITY empty buckets. */
  function Empty(): (t: Table)
    ensures Valid(t) && t.size == 0 && t.capacity == DEFAULT_CAPACITY
    ensures forall k :: Get(t, k) == None
  {
    FlattenAllEmpty(DEFAULT_CAPACITY);
    Table(NoChains(DEFAULT_CAPACITY), 0, DEFAULT_CAPACITY)
  }

  /**
   * Map::resize: when `size` has reached `capacity`, double the capacity and
   * move each old chain, whole, to the slot of its head (see Scatter).
   */
  function Resize(t: Table): (r: Table)
    requires Valid(t)
    ensures Valid(r) && r.size == t.size && r.size < r.capacity
    ensures r.capacity == if t.size >= t.capacity then 2 * t.capacity else t.capacity
    ensures t.size < t.capacity ==> r == t
  {
    if t.size >= t.capacity then
      var nc := 2 * t.capacity;
      ScatterKeepsEveryNode(t.buckets, t.capacity);
      ScatterHeadsPlaced(t.buckets, nc);
      ScatterNodesWF(t.buckets, nc);
      Table(Scatter(t.buckets, nc), t.size, nc)
    else
      t
  }

  /** The slot a key hashes to. */
  function Slot(t: Table, k: seq<Byte>): (i: nat)
    requires t.capacity > 0
    ensures i < t.capacity
  {
    Hash(k) % t.capacity
  }

  /**
   * The second half of Map::put: append a new node for (k, v) at the tail of
   * chain `hash(k) % capacity` and count it.
   */
  function Append(t: Table, k: seq<Byte>, v: seq<Byte>): (r: Table)
    requires Valid(t) && t.size < t.capacity && Fits(k) && Fits(v)
    ensures Valid(r) && r.size == t.size + 1 && r.capacity == t.capacity
  {
    var i := Slot(t, k);
    var r := Table(t.buckets[i := t.buckets[i] + [MakeNode(k, v)]], t.size + 1, t.capacity);
    FlattenUpdateLength(t.buckets, i, t.buckets[i] + [MakeNode(k, v)]);
    r
  }

  /** Append, written out as the bucket array it builds. */
  lemma AppendAt(t: Table, k: seq<Byte>, v: seq<Byte>, index: nat, n: Node)
    requires Valid(t) && t.size < t.capacity && Fits(k) && Fits(v)
    requires index == Hash(k) % t.capacity && n == MakeNode(k, v)
    ensures Append(t, k, v) == Table(t.buckets[index := t.buckets[index] + [n]], t.size + 1, t.capacity)
  {
  }

  /** Map::put: resize if due, then append. */
  function Put(t: Table, k: seq<Byte>, v: seq<Byte>): (r: Table)
    requires Valid(t) && Fits(k) && Fits(v)
    ensures Valid(r) && r.size == t.size + 1
    ensures r.capacity == if t.size >= t.capacity then 2 * t.capacity else t.capacity
  {
    Append(Resize(t), k, v)
  }

  /** Map::get: the value of the first node of chain `hash(k) % capacity` whose key is k. */
  function Get(t: Table, k: seq<Byte>): (r: Option<seq<Byte>>)
    requires t.capacity > 0 && |t.buckets| == t.capacity
    ensures var c := t.buckets[Slot(t, k)];
      r.None? <==> forall j :: 0 <= j < |c| ==> NodeKey(c[j]) != k
    ensures var c := t.buckets[Slot(t, k)];
      r.Some? ==>
        exists j :: 0 <= j < |c| && NodeKey(c[j]) == k && r.value == NodeValue(c[j]) &&
                    (forall i :: 0 <= i < j ==> NodeKey(c[i]) != k)
  {
    Find(t.buckets[Slot(t, k)], k)
  }

  /** A pair of strings, first the key then the value. */
  type Pair = (seq<Byte>, seq<Byte>)

  ghost predicate AllFit(pairs: seq<Pair>) {
    forall i :: 0 <= i < |pairs| ==> Fits(pairs[i].0) && Fits(pairs[i].1)
  }

  /** A fresh Map after put(k, v) for every pair, in order. */
  function Build(pairs: seq<Pair>): (r: Table)
    requires AllFit(pairs)
    ensures Valid(r) && r.size == |pairs|
    ensures |pairs| <= DEFAULT_CAPACITY ==> r.capacity == DEFAULT_CAPACITY
    decreases |pairs|
  {
    if pairs == [] then Empty()
    else
      var last := pairs[|pairs| - 1];
      Put(Build(pairs[..|pairs| - 1]), last.0, last.1)
  }

  /** The (value, key) pairs of a sequence of nodes, in the same order. */
  function Swapped(ns: seq<Node>): (ps: seq<Pair>)
    ensures |ps| == |ns|
  {
    seq(|ns|, i requires 0 <= i < |ns| => (NodeValue(ns[i]), NodeKey(ns[i])))
  }

  /** invert's outer loop moving past slot i: the nodes visited so far are well formed. */
  lemma InvertStep(t: Table, i: nat)
    requires Valid(t) && i < |t.buckets|
    ensures ChainWF(t.buckets[i]) && ChainWF(Flatten(t.buckets[..i]))
    ensures Flatten(t.buckets[..i + 1]) == Flatten(t.buckets[..i]) + t.buckets[i]
  {
    assert BucketsWF(t.buckets[..i]);
    FlattenWF(t.buckets[..i]);
    FlattenStep(t.buckets, i);
  }

  /** invert's outer loop has visited every slot. */
  lemma InvertDone(t: Table)
    requires Valid(t)
    ensures Flatten(t.buckets[..t.capacity]) == Flatten(t.buckets)
  {
    assert t.buckets[..t.capacity] == t.buckets;
  }

  lemma SwappedFit(ns: seq<Node>)
    requires ChainWF(ns)
    ensures AllFit(Swapped(ns))
  {
  }

  /** Putting one more swapped node extends the run of puts by one. */
  lemma BuildSwappedSnoc(ns: seq<Node>, n: Node)
    requires ChainWF(ns) && WellFormed(n)
    ensures ChainWF(ns + [n]) && AllFit(Swapped(ns)) && AllFit(Swapped(ns + [n]))
    ensures Build(Swapped(ns + [n])) == Put(Build(Swapped(ns)), NodeValue(n), NodeKey(n))
  {
    SwappedFit(ns);
    SwappedFit(ns + [n]);
    var ps := Swapped(ns + [n]);
    assert ps[..|ps| - 1] == Swapped(ns);
  }

  /** `t` after put(value, key) for every node of `c`, head first. */
  function PutSwapped(t: Table, c: seq<Node>): (r: Table)
    requires Valid(t) && ChainWF(c)
    ensures Valid(r) && r.size == t.size + |c|
    decreases |c|
  {
    if c == [] then t
    else
      var last := c[|c| - 1];
      Put(PutSwapped(t, c[..|c| - 1]), NodeValue(last), NodeKey(last))
  }

  lemma PutSwappedStep(t: Table, c: seq<Node>, j: nat)
    requires Valid(t) && ChainWF(c) && j < |c|
    ensures PutSwapped(t, c[..j + 1]) == Put(PutSwapped(t, c[..j]), NodeValue(c[j]), NodeKey(c[j]))
  {
    assert c[..j + 1][..j] == c[..j];
  }

  /** Swapping and putting the nodes of `c` after those of `ns` continues the same run of puts. */
  lemma {:induction false} BuildSwappedAppend(ns: seq<Node>, c: seq<Node>)
    requires ChainWF(ns) && ChainWF(c)
    ensures ChainWF(ns + c) && AllFit(Swapped(ns)) && AllFit(Swapped(ns + c))
    ensures Build(Swapped(ns + c)) == PutSwapped(Build(Swapped(ns)), c)
    decreases |c|
  {
    SwappedFit(ns);
    SwappedFit(ns + c);
    if c != [] {
      var init, last := c[..|c| - 1], c[|c| - 1];
      BuildSwappedAppend(ns, init);
      BuildSwappedSnoc(ns + init, last);
      AppendLast(ns, c);
    } else {
      assert ns + c == ns;
    }
  }

  /**
   * Map::invert: a fresh Map receives put(value, key) for every node, slot
   * by slot and each chain in order; its state then replaces this one.
   */
  function Invert(t: Table): (r: Table)
    requires Valid(t)
    ensures Valid(r) && r.size == t.size
  {
    FlattenWF(t.buckets);
    Build(Swapped(Flatten(t.buckets)))
  }
}
