/**
 * The Map class itself: a bucket array of chains plus `size` and `capacity`,
 * updated in place. Every method is proved to move the state exactly as the
 * corresponding function of Dictionary says, so the lemmas proved there
 * about those functions hold of the class.
 */
module HashTable {
  import opened Options
  import opened CStrings
  import opened Hashing
  import opened Chains
  import Dictionary

  /**
   * `new Node()` followed by strncpy of the key and of the value into its
   * buffers and the hash stored beside them, as put() and setBuckets() do.
   */
  method NewNode(key: seq<Byte>, value: seq<Byte>, hashValue: nat) returns (n: Node)
    requires FitsBuffer(key) && FitsBuffer(value)
    ensures n == Node(Pad(CStr(key)), Pad(CStr(value)), hashValue)
    ensures Fits(CStr(key)) && Fits(CStr(value))
    ensures hashValue == Hash(CStr(key)) ==> n == MakeNode(CStr(key), CStr(value))
  {
    var newKey := new Byte[MAX_CSTRING_SIZE](_ => NUL);
    var newValue := new Byte[MAX_CSTRING_SIZE](_ => NUL);
    Strncpy(newKey, key, MAX_CSTRING_SIZE);
    var keyCells := newKey[..];
    assert keyCells == Padded(key, MAX_CSTRING_SIZE) by {
      assert keyCells == newKey[..MAX_CSTRING_SIZE];
    }
    Strncpy(newValue, value, MAX_CSTRING_SIZE);
    var valueCells := newValue[..];
    assert valueCells == Padded(value, MAX_CSTRING_SIZE) by {
      assert valueCells == newValue[..MAX_CSTRING_SIZE];
    }
    PaddedIsPad(key);
    PaddedIsPad(value);
    n := Node(keyCells, valueCells, hashValue);
  }

  /**
   * The inner loop of Map::setBuckets: a fresh node for each node of a
   * chain, both buffers strncpy'd and the hash copied, linked in order.
   */
  method CopyChain(invChain: seq<Node>) returns (chain: seq<Node>)
    requires ChainWF(invChain)
    ensures chain == invChain
  {
    chain := [];
    for j := 0 to |invChain|
      invariant chain == invChain[..j]
    {
      var invNode := invChain[j];
      assert WellFormed(invNode);
      assert invNode.key == Pad(NodeKey(invNode)) && invNode.value == Pad(NodeValue(invNode));
      var newNode := NewNode(invNode.key, invNode.value, invNode.hashValue);
      chain := chain + [newNode];
      assert invChain[..j + 1] == invChain[..j] + [invNode];
    }
    assert invChain[..|invChain|] == invChain;
  }

  /**
   * The loop of Map::get: walk a chain from its head with strcmp and answer
   * the value buffer of the first node whose key equals `key`, or None (a
   * null pointer) at the end of the chain.
   */
  method Scan(chain: seq<Node>, key: seq<Byte>) returns (r: Option<seq<Byte>>)
    requires ChainWF(chain) && Terminated(key)
    ensures Find(chain, CStr(key)) == if r.None? then None else Some(CStr(r.value))
    ensures r.Some? ==> FitsBuffer(r.value)
  {
    var j := 0;
    while j < |chain|
      invariant j <= |chain|
      invariant forall m :: 0 <= m < j ==> NodeKey(chain[m]) != CStr(key)
    {
      NodeBuffers(chain[j]);
      var c := Strcmp(chain[j].key, key);
      CompareZeroIff(NodeKey(chain[j]), CStr(key));
      if c == 0 {
        FirstMatchUnique(chain, CStr(key), j);
        return Some(chain[j].value);
      }
      assert NodeKey(chain[j]) != CStr(key);
      j := j + 1;
    }
    return None;
  }

  class Map {
    /** buckets[i] is the chain hanging off slot i (empty for a null head). */
    var buckets: array<seq<Node>>
    var size: nat
    var capacity: nat

    /** The fields of this Map as a value. */
    ghost function State(): Dictionary.Table
      reads this, buckets
    {
      Dictionary.Table(buckets[..], size, capacity)
    }

    ghost predicate Valid()
      reads this, buckets
    {
      Dictionary.Valid(State())
    }

    /** Map::Map(): DEFAULT_CAPACITY empty buckets, size 0. */
    constructor()
      ensures Valid() && State() == Dictionary.Empty() && fresh(buckets)
    {
      size := 0;
      capacity := Dictionary.DEFAULT_CAPACITY;
      buckets := new seq<Node>[Dictionary.DEFAULT_CAPACITY](_ => []);
      new;
      assert buckets[..] == NoChains(Dictionary.DEFAULT_CAPACITY);
      assert State() == Dictionary.Empty();
    }

    /**
     * Map::resize: once size reaches capacity (LOAD_FACTOR is 1), a new
     * bucket array of twice the capacity receives each old head, and with it
     * its whole chain, at slot `head.hashValue % newCapacity`.
     */
    method Resize()
      requires Valid()
      modifies this
      ensures Valid() && State() == Dictionary.Resize(old(State()))
      ensures buckets == old(buckets) || fresh(buckets)
    {
      if size >= capacity {
        var newCapacity := capacity * 2;
        var newBuckets := new seq<Node>[newCapacity](_ => []);
        assert newBuckets[..] == Scatter(buckets[..0], newCapacity);
        for i := 0 to capacity
          invariant unchanged(this)
          invariant newBuckets[..] == Scatter(buckets[..i], newCapacity)
        {
          ScatterStep(buckets[..], i, newCapacity);
          var node := buckets[i];
          if node != [] {
            var index := node[0].hashValue % newCapacity;
            newBuckets[index] := node;
          }
        }
        ghost var t := State();
        assert buckets[..capacity] == buckets[..];
        buckets := newBuckets;
        capacity := newCapacity;
        assert State() == Dictionary.Resize(t);
      }
    }

    /**
     * Map::put: resize if due, then append a node holding strncpy'd copies
     * of the key and the value and the key's hash at the tail of chain
     * `hash(key) % capacity`, and count it. An existing key is not replaced.
     */
    method Put(key: seq<Byte>, value: seq<Byte>)
      requires Valid() && FitsBuffer(key) && FitsBuffer(value)
      modifies this, buckets
      ensures Valid() && State() == Dictionary.Put(old(State()), CStr(key), CStr(value))
      ensures buckets == old(buckets) || fresh(buckets)
    {
      Resize();
      AppendNode(key, value);
    }

    /** The part of Map::put after the resize: link the new node at the tail of its chain. */
    method AppendNode(key: seq<Byte>, value: seq<Byte>)
      requires Valid() && size < capacity && FitsBuffer(key) && FitsBuffer(value)
      modifies this, buckets
      ensures State() == Dictionary.Append(old(State()), CStr(key), CStr(value))
      ensures buckets == old(buckets)
    {
      ghost var t := State();
      var hashValue := ComputeHash(key);
      var index := hashValue % capacity;

      var newNode := NewNode(key, value, hashValue);
      var chain := buckets[index];
      if chain == [] {
        chain := [newNode];
      } else {
        // the new node is linked after the last node of the chain
        chain := chain + [newNode];
      }
      assert chain == t.buckets[index] + [newNode];
      Dictionary.AppendAt(t, CStr(key), CStr(value), index, newNode);
      buckets[index] := chain;
      size := size + 1;
      assert buckets[..] == t.buckets[index := chain];
    }

    /**
     * Map::get: scan chain `hash(key) % capacity` with strcmp and return the
     * value buffer of the first node whose key equals `key`, or None (a null
     * pointer) when no node of that chain matches.
     */
    method Get(key: seq<Byte>) returns (r: Option<seq<Byte>>)
      requires Valid() && Terminated(key)
      ensures Dictionary.Get(State(), CStr(key)) == if r.None? then None else Some(CStr(r.value))
      ensures r.Some? ==> FitsBuffer(r.value)
    {
      var hashValue := ComputeHash(key);
      var index := hashValue % capacity;
      var chain := buckets[index];
      assert ChainWF(chain) by {
        assert chain == State().buckets[index];
      }
      r := Scan(chain, key);
    }

    /**
     * Map::setBuckets: replace the bucket array by a fresh copy of
     * `invBuckets`, chain by chain and node by node (both buffers strncpy'd,
     * the hash copied), then take over the given capacity and size.
     */
    method SetBuckets(invBuckets: array<seq<Node>>, invCapacity: nat, invSize: nat)
      requires invBuckets.Length == invCapacity && BucketsWF(invBuckets[..])
      modifies this
      ensures State() == Dictionary.Table(invBuckets[..], invSize, invCapacity)
      ensures fresh(buckets)
    {
      var newBuckets := new seq<Node>[invCapacity](_ => []);
      for i := 0 to invCapacity
        invariant forall m :: 0 <= m < i ==> newBuckets[m] == invBuckets[m]
      {
        var invChain := invBuckets[i];
        assert ChainWF(invChain) by {
          assert invChain == invBuckets[..][i];
        }
        var chain := CopyChain(invChain);
        newBuckets[i] := chain;
      }
      assert newBuckets[..] == invBuckets[..];
      buckets := newBuckets;
      capacity := invCapacity;
      size := invSize;
    }

    /**
     * The inner loop of Map::invert, run on the map being built: put(value,
     * key) for every node of one chain, from its head to its tail.
     */
    method PutInverted(chain: seq<Node>)
      requires Valid() && ChainWF(chain)
      modifies this, buckets
      ensures State() == Dictionary.PutSwapped(old(State()), chain)
      ensures buckets == old(buckets) || fresh(buckets)
    {
      for j := 0 to |chain|
        invariant buckets == old(buckets) || fresh(buckets)
        invariant Valid() && State() == Dictionary.PutSwapped(old(State()), chain[..j])
      {
        Dictionary.PutSwappedStep(old(State()), chain, j);
        NodeBuffers(chain[j]);
        Put(chain[j].value, chain[j].key);
      }
      assert chain[..|chain|] == chain;
    }

    /**
     * The first part of Map::invert: a fresh Map that has received
     * put(value, key) for every node of this one, slot 0 upwards and each
     * chain from its head. This Map is left as it is.
     */
    method Inverted() returns (inverted: Map)
      requires Valid()
      ensures fresh(inverted) && fresh(inverted.buckets)
      ensures inverted.State() == Dictionary.Invert(State())
    {
      ghost var t := State();
      inverted := new Map();
      for i := 0 to capacity
        invariant fresh(inverted) && fresh(inverted.buckets)
        invariant ChainWF(Flatten(t.buckets[..i])) && Dictionary.AllFit(Dictionary.Swapped(Flatten(t.buckets[..i])))
        invariant inverted.State() == Dictionary.Build(Dictionary.Swapped(Flatten(t.buckets[..i])))
      {
        Dictionary.InvertStep(t, i);
        Dictionary.BuildSwappedAppend(Flatten(t.buckets[..i]), t.buckets[i]);
        inverted.PutInverted(buckets[i]);
      }
      Dictionary.InvertDone(t);
    }

    /**
     * Map::invert: build the inverted Map, then take over a copy of its
     * buckets, its capacity and its size.
     */
    method Invert()
      requires Valid()
      modifies this
      ensures Valid() && State() == Dictionary.Invert(old(State()))
    {
      var inverted := Inverted();
      SetBuckets(inverted.buckets, inverted.capacity, inverted.size);
    }
  }
}
