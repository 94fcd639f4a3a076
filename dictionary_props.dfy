/**
 * What the Map operations promise to a caller: put then get, lookup in a
 * Map filled by a run of puts, lookup after invert, and the capacity a run
 * of puts ends with.
 */
module DictionaryProps {
  import opened Options
  import opened CStrings
  import opened Hashing
  import opened Chains
  import opened Dictionary

  // ------------------------------------------------------------------ put

  /** put appends one node at the tail of chain `hash(k) % capacity` and changes no other chain. */
  lemma PutAppendsAtTail(t: Table, k: seq<Byte>, v: seq<Byte>)
    requires Valid(t) && Fits(k) && Fits(v)
    ensures var r, s := Resize(t), Put(t, k, v);
      && s.size == t.size + 1
      && s.capacity == r.capacity
      && s.buckets[Slot(r, k)] == r.buckets[Slot(r, k)] + [MakeNode(k, v)]
      && forall i :: 0 <= i < r.capacity && i != Slot(r, k) ==> s.buckets[i] == r.buckets[i]
  {
  }

  /**
   * Right after put(k, v), get(k) is never null: it answers v unless a node
   * with key k already lies in that chain (the first write wins); get of any
   * other key answers what it answered after the resize.
   */
  lemma PutThenGet(t: Table, k: seq<Byte>, v: seq<Byte>, k': seq<Byte>)
    requires Valid(t) && Fits(k) && Fits(v)
    ensures Get(Put(t, k, v), k') == if k' == k then Some(Get(Resize(t), k).GetOr(v)) else Get(Resize(t), k')
  {
    var r := Resize(t);
    var i := Slot(r, k);
    var n := MakeNode(k, v);
    AppendAt(r, k, v, i, n);
    if Slot(r, k') == i {
      FindAppend(r.buckets[i], [n], k');
    }
  }

  /** Without a resize (size below capacity) put and get behave as a first-write-wins map. */
  lemma PutThenGetNoResize(t: Table, k: seq<Byte>, v: seq<Byte>, k': seq<Byte>)
    requires Valid(t) && Fits(k) && Fits(v) && t.size < t.capacity
    ensures Get(Put(t, k, v), k') == if k' == k then Some(Get(t, k).GetOr(v)) else Get(t, k')
  {
    PutThenGet(t, k, v, k');
  }

  /** Whatever get answers is the value of a node with that key stored somewhere in the Map. */
  lemma GetSound(t: Table, k: seq<Byte>)
    requires Valid(t)
    ensures Get(t, k).Some? ==> exists n :: n in Flatten(t.buckets) && NodeKey(n) == k && NodeValue(n) == Get(t, k).value
  {
    if Get(t, k).Some? {
      var c := t.buckets[Slot(t, k)];
      var j :| 0 <= j < |c| && NodeKey(c[j]) == k && Get(t, k).value == NodeValue(c[j]);
      MemberFlatten(t.buckets, Slot(t, k), c[j]);
    }
  }

  // ------------------------------------------------------ a run of puts

  /** An association list lookup: the value of the first pair whose key is k. */
  function AssocFirst(pairs: seq<Pair>, k: seq<Byte>): Option<seq<Byte>>
  {
    if pairs == [] then None
    else if pairs[0].0 == k then Some(pairs[0].1)
    else AssocFirst(pairs[1..], k)
  }

  lemma {:induction false} AssocFirstSnoc(pairs: seq<Pair>, p: Pair, k: seq<Byte>)
    ensures AssocFirst(pairs + [p], k) ==
      if AssocFirst(pairs, k).Some? then AssocFirst(pairs, k)
      else if p.0 == k then Some(p.1) else None
  {
    if pairs != [] {
      assert (pairs + [p])[1..] == pairs[1..] + [p];
      AssocFirstSnoc(pairs[1..], p, k);
    }
  }

  /** AssocFirstSnoc, stated for the last pair of a non-empty list. */
  lemma AssocFirstLast(pairs: seq<Pair>, k: seq<Byte>)
    requires pairs != []
    ensures var init, last := pairs[..|pairs| - 1], pairs[|pairs| - 1];
      AssocFirst(pairs, k) ==
        if AssocFirst(init, k).Some? then AssocFirst(init, k)
        else if last.0 == k then Some(last.1) else None
  {
    var init, last := pairs[..|pairs| - 1], pairs[|pairs| - 1];
    assert init + [last] == pairs;
    AssocFirstSnoc(init, last, k);
  }

  /**
   * A Map that has received at most DEFAULT_CAPACITY puts (so never resized)
   * answers get(k) with the value of the FIRST pair put with key k.
   */
  lemma {:induction false} BuildLookup(pairs: seq<Pair>, k: seq<Byte>)
    requires AllFit(pairs) && |pairs| <= DEFAULT_CAPACITY
    ensures Get(Build(pairs), k) == AssocFirst(pairs, k)
    decreases |pairs|
  {
    if pairs != [] {
      var init, last := pairs[..|pairs| - 1], pairs[|pairs| - 1];
      BuildLookup(init, k);
      PutThenGetNoResize(Build(init), last.0, last.1, k);
      AssocFirstLast(pairs, k);
    }
  }

  /** The nodes put() creates for a list of pairs. */
  function Made(pairs: seq<Pair>): (ns: seq<Node>)
    requires AllFit(pairs)
    ensures |ns| == |pairs|
  {
    seq(|pairs|, i requires 0 <= i < |pairs| && AllFit(pairs) => MakeNode(pairs[i].0, pairs[i].1))
  }

  ghost predicate NodesFrom(b: seq<seq<Node>>, ns: seq<Node>) {
    forall i, n :: 0 <= i < |b| && n in b[i] ==> n in ns
  }

  /** put adds only the node it makes: resize moves chains, never invents nodes. */
  lemma PutNodes(t: Table, k: seq<Byte>, v: seq<Byte>, made: seq<Node>)
    requires Valid(t) && Fits(k) && Fits(v)
    requires NodesFrom(t.buckets, made) && MakeNode(k, v) in made
    ensures NodesFrom(Put(t, k, v).buckets, made)
  {
    var r := Resize(t);
    assert NodesFrom(r.buckets, made) by {
      if t.size >= t.capacity {
        forall j, n | 0 <= j < |r.buckets| && n in r.buckets[j] ensures n in made {
          ScatterChainsAreOld(t.buckets, 2 * t.capacity, j);
        }
      }
    }
  }

  lemma MadePrefix(pairs: seq<Pair>)
    requires AllFit(pairs) && pairs != []
    ensures AllFit(pairs[..|pairs| - 1])
    ensures forall n :: n in Made(pairs[..|pairs| - 1]) ==> n in Made(pairs)
    ensures MakeNode(pairs[|pairs| - 1].0, pairs[|pairs| - 1].1) in Made(pairs)
  {
    var init := pairs[..|pairs| - 1];
    assert forall q :: 0 <= q < |init| ==> Made(init)[q] == Made(pairs)[q];
    assert Made(pairs)[|pairs| - 1] == MakeNode(pairs[|pairs| - 1].0, pairs[|pairs| - 1].1);
  }

  /** Every node of a Map filled by puts was made by one of those puts (resizes included). */
  lemma {:induction false} BuildNodes(pairs: seq<Pair>)
    requires AllFit(pairs)
    ensures NodesFrom(Build(pairs).buckets, Made(pairs))
    decreases |pairs|
  {
    if pairs != [] {
      var init, last := pairs[..|pairs| - 1], pairs[|pairs| - 1];
      BuildNodes(init);
      MadePrefix(pairs);
      PutNodes(Build(init), last.0, last.1, Made(pairs));
    }
  }

  // --------------------------------------------------- no node is lost

  /** resize keeps every node, though it may leave one in a chain its key does not hash to. */
  lemma ResizeKeepsNode(t: Table, n: Node)
    requires Valid(t) && n in Flatten(t.buckets)
    ensures n in Flatten(Resize(t).buckets)
  {
    if t.size >= t.capacity {
      ScatterKeepsMember(t.buckets, t.capacity, n);
    }
  }

  lemma AppendKeepsNode(b: seq<seq<Node>>, i: nat, x: Node, n: Node)
    requires i < |b| && (n in Flatten(b) || n == x)
    ensures n in Flatten(b[i := b[i] + [x]])
  {
    if n == x {
      MemberFlatten(b[i := b[i] + [x]], i, n);
    } else {
      FlattenMember(b, n);
      var j :| 0 <= j < |b| && n in b[j];
      MemberFlatten(b[i := b[i] + [x]], j, n);
    }
  }

  /** put keeps every node already stored and stores the one it makes. */
  lemma PutKeepsNode(t: Table, k: seq<Byte>, v: seq<Byte>, n: Node)
    requires Valid(t) && Fits(k) && Fits(v) && (n in Flatten(t.buckets) || n == MakeNode(k, v))
    ensures n in Flatten(Put(t, k, v).buckets)
  {
    var r := Resize(t);
    if n != MakeNode(k, v) {
      ResizeKeepsNode(t, n);
    }
    AppendKeepsNode(r.buckets, Slot(r, k), MakeNode(k, v), n);
  }

  /** resize keeps every stored node as often as it was stored. */
  lemma ResizeKeepsEveryNode(t: Table)
    requires Valid(t)
    ensures multiset(Flatten(Resize(t).buckets)) == multiset(Flatten(t.buckets))
  {
    if t.size >= t.capacity {
      ScatterKeepsNodeCounts(t.buckets, t.capacity);
    }
  }

  /** put stores exactly one new node, MakeNode(k, v), and keeps every other one. */
  lemma PutAddsOneNode(t: Table, k: seq<Byte>, v: seq<Byte>)
    requires Valid(t) && Fits(k) && Fits(v)
    ensures multiset(Flatten(Put(t, k, v).buckets)) == multiset(Flatten(t.buckets)) + multiset{MakeNode(k, v)}
  {
    var r, n := Resize(t), MakeNode(k, v);
    var i := Slot(r, k);
    AppendAt(r, k, v, i, n);
    ResizeKeepsEveryNode(t);
    FlattenUpdateMultiset(r.buckets, i, r.buckets[i] + [n]);
    UnionCancel(multiset(Flatten(Put(t, k, v).buckets)), multiset(r.buckets[i]), multiset(Flatten(r.buckets)), multiset{n});
  }

  /** The nodes made for one more pair: those of the earlier pairs, then its own. */
  lemma MadeSnoc(pairs: seq<Pair>)
    requires AllFit(pairs) && pairs != []
    ensures AllFit(pairs[..|pairs| - 1])
    ensures Made(pairs) == Made(pairs[..|pairs| - 1]) + [MakeNode(pairs[|pairs| - 1].0, pairs[|pairs| - 1].1)]
  {
    var init, last := pairs[..|pairs| - 1], pairs[|pairs| - 1];
    assert AllFit(init) by {
      forall q | 0 <= q < |init| ensures Fits(init[q].0) && Fits(init[q].1) {
        assert init[q] == pairs[q];
      }
    }
    var made, extended := Made(pairs), Made(init) + [MakeNode(last.0, last.1)];
    forall q | 0 <= q < |made| ensures made[q] == extended[q] {
      if q < |init| {
        assert init[q] == pairs[q];
      }
    }
  }

  /**
   * No put is ever lost: after a run of puts the table stores exactly the
   * nodes made for the pairs, each as many times as it was put, resizes included.
   */
  lemma {:induction false} BuildStoresEveryPut(pairs: seq<Pair>)
    requires AllFit(pairs)
    ensures multiset(Flatten(Build(pairs).buckets)) == multiset(Made(pairs))
    decreases |pairs|
  {
    if pairs == [] {
      FlattenAllEmpty(DEFAULT_CAPACITY);
    } else {
      var init, last := pairs[..|pairs| - 1], pairs[|pairs| - 1];
      MadeSnoc(pairs);
      BuildStoresEveryPut(init);
      PutAddsOneNode(Build(init), last.0, last.1);
    }
  }

  /** The node of every pair is stored in some chain of `t`. */
  ghost predicate KeepsPairs(t: Table, pairs: seq<Pair>)
    requires AllFit(pairs)
  {
    forall q :: 0 <= q < |pairs| ==> MakeNode(pairs[q].0, pairs[q].1) in Flatten(t.buckets)
  }

  /** put of the last pair keeps the nodes of the earlier ones and stores its own. */
  lemma PutKeepsPairs(t: Table, pairs: seq<Pair>)
    requires Valid(t) && AllFit(pairs) && pairs != []
    requires AllFit(pairs[..|pairs| - 1]) && KeepsPairs(t, pairs[..|pairs| - 1])
    ensures KeepsPairs(Put(t, pairs[|pairs| - 1].0, pairs[|pairs| - 1].1), pairs)
  {
    var init, last := pairs[..|pairs| - 1], pairs[|pairs| - 1];
    forall q | 0 <= q < |pairs|
      ensures MakeNode(pairs[q].0, pairs[q].1) in Flatten(Put(t, last.0, last.1).buckets)
    {
      if q < |init| {
        assert init[q] == pairs[q];
      }
      PutKeepsNode(t, last.0, last.1, MakeNode(pairs[q].0, pairs[q].1));
    }
  }

  /** No pair put into a Map is ever lost: its node is stored in some chain, resizes included. */
  lemma {:induction false} BuildKeepsEveryPair(pairs: seq<Pair>)
    requires AllFit(pairs)
    ensures KeepsPairs(Build(pairs), pairs)
    decreases |pairs|
  {
    if pairs != [] {
      var init := pairs[..|pairs| - 1];
      assert AllFit(init);
      BuildKeepsEveryPair(init);
      PutKeepsPairs(Build(init), pairs);
    }
  }

  // -------------------------------------------------------------- invert

  lemma {:induction false} AssocFirstSwapped(ns: seq<Node>, v: seq<Byte>)
    ensures AssocFirst(Swapped(ns), v) == FirstKeyFor(ns, v)
  {
    if ns != [] {
      assert Swapped(ns)[1..] == Swapped(ns[1..]);
      AssocFirstSwapped(ns[1..], v);
    }
  }

  /**
   * After invert of a Map of at most DEFAULT_CAPACITY entries, get(v) answers
   * the key of the first node holding value v, in the order invert visits
   * them (slot 0 upwards, each chain in order).
   */
  lemma InvertLookup(t: Table, v: seq<Byte>)
    requires Valid(t) && t.size <= DEFAULT_CAPACITY
    ensures Get(Invert(t), v) == FirstKeyFor(Flatten(t.buckets), v)
  {
    FlattenWF(t.buckets);
    BuildLookup(Swapped(Flatten(t.buckets)), v);
    AssocFirstSwapped(Flatten(t.buckets), v);
  }

  /** A node put() made for `pairs` carries the key and value of one of them. */
  lemma MadeNodeIsPair(pairs: seq<Pair>, n: Node)
    requires AllFit(pairs) && n in Made(pairs)
    ensures exists q :: 0 <= q < |pairs| && pairs[q] == (NodeKey(n), NodeValue(n))
  {
    var q :| 0 <= q < |pairs| && Made(pairs)[q] == n;
    assert pairs[q] == (NodeKey(n), NodeValue(n));
  }

  /** get answers only values of nodes made from `pairs`, under their own key. */
  lemma GetFromMadeNodes(t: Table, k: seq<Byte>, pairs: seq<Pair>)
    requires t.capacity > 0 && |t.buckets| == t.capacity
    requires AllFit(pairs) && NodesFrom(t.buckets, Made(pairs))
    ensures Get(t, k).Some? ==>
      exists q :: 0 <= q < |pairs| && pairs[q].0 == k && pairs[q].1 == Get(t, k).value
  {
    var s := Slot(t, k);
    var c := t.buckets[s];
    match Find(c, k)
    case None =>
    case Some(v) =>
      var j :| 0 <= j < |c| && NodeKey(c[j]) == k && v == NodeValue(c[j]);
      MadeNodeIsPair(pairs, c[j]);
  }

  /** Whatever get answers after a run of puts is the value of one of the pairs put with that key. */
  lemma BuildGetSound(pairs: seq<Pair>, k: seq<Byte>)
    requires AllFit(pairs)
    ensures Get(Build(pairs), k).Some? ==>
      exists q :: 0 <= q < |pairs| && pairs[q].0 == k && pairs[q].1 == Get(Build(pairs), k).value
  {
    BuildNodes(pairs);
    GetFromMadeNodes(Build(pairs), k, pairs);
  }

  /** A pair of Swapped(ns) is the (value, key) of one of the nodes of ns. */
  lemma SwappedPairIsNode(ns: seq<Node>, v: seq<Byte>, k: seq<Byte>, q: nat)
    requires q < |ns| && Swapped(ns)[q] == (v, k)
    ensures exists n :: n in ns && NodeValue(n) == v && NodeKey(n) == k
  {
    assert ns[q] in ns;
  }

  /** A run of puts of swapped nodes answers get(v) only with the key of a node whose value is v. */
  lemma BuildSwappedGetSound(ns: seq<Node>, v: seq<Byte>)
    requires ChainWF(ns)
    ensures AllFit(Swapped(ns))
    ensures Get(Build(Swapped(ns)), v).Some? ==>
      exists n :: n in ns && NodeValue(n) == v && NodeKey(n) == Get(Build(Swapped(ns)), v).value
  {
    var ps := Swapped(ns);
    var r := Get(Build(ps), v);
    if r.Some? {
      BuildGetSound(ps, v);
      var q :| 0 <= q < |ps| && ps[q].0 == v && ps[q].1 == r.value;
      SwappedPairIsNode(ns, v, r.value, q);
    }
  }

  /** After invert (of any size) get finds only strings that were values, and answers one of their keys. */
  lemma InvertFindsOnlyValues(t: Table, v: seq<Byte>)
    requires Valid(t)
    ensures Get(Invert(t), v).Some? ==>
      exists n :: n in Flatten(t.buckets) && NodeValue(n) == v && NodeKey(n) == Get(Invert(t), v).value
  {
    FlattenWF(t.buckets);
    BuildSwappedGetSound(Flatten(t.buckets), v);
  }

  /** A node stored after a run of puts is the node of one of the pairs. */
  lemma StoredNodeIsPair(pairs: seq<Pair>, n: Node)
    requires AllFit(pairs) && n in Flatten(Build(pairs).buckets)
    ensures exists q :: 0 <= q < |pairs| && pairs[q] == (NodeKey(n), NodeValue(n))
  {
    var t := Build(pairs);
    FlattenMember(t.buckets, n);
    var j :| 0 <= j < |t.buckets| && n in t.buckets[j];
    BuildNodes(pairs);
    MadeNodeIsPair(pairs, n);
  }

  /** No key is defined twice. */
  ghost predicate DistinctKeys(pairs: seq<Pair>) {
    forall p, q :: 0 <= p < q < |pairs| ==> pairs[p].0 != pairs[q].0
  }

  /** AssocFirst answers only for a key some pair defines. */
  lemma {:induction false} AssocFirstDefined(pairs: seq<Pair>, k: seq<Byte>)
    requires AssocFirst(pairs, k).Some?
    ensures exists q :: 0 <= q < |pairs| && pairs[q].0 == k
  {
    if pairs[0].0 != k {
      AssocFirstDefined(pairs[1..], k);
      var q :| 0 <= q < |pairs[1..]| && pairs[1..][q].0 == k;
      assert pairs[q + 1] == pairs[1..][q];
    }
  }

  /** With no key defined twice, AssocFirst answers each key with the value of its one pair. */
  lemma {:induction false} AssocFirstDistinct(pairs: seq<Pair>, q: nat)
    requires q < |pairs| && DistinctKeys(pairs)
    ensures AssocFirst(pairs, pairs[q].0) == Some(pairs[q].1)
  {
    if q > 0 {
      var tail := pairs[1..];
      assert pairs[0].0 != pairs[q].0;
      forall a, b | 0 <= a < b < |tail|
        ensures tail[a].0 != tail[b].0
      {
        assert tail[a] == pairs[a + 1] && tail[b] == pairs[b + 1];
      }
      assert tail[q - 1] == pairs[q];
      AssocFirstDistinct(tail, q - 1);
    }
  }

  /** Every pair put survives inversion, as a node with key and value swapped. */
  lemma InvertKeepsPair(pairs: seq<Pair>, r: nat)
    requires AllFit(pairs) && r < |pairs|
    ensures MakeNode(pairs[r].1, pairs[r].0) in Flatten(Invert(Build(pairs)).buckets)
  {
    var fs := Flatten(Build(pairs).buckets);
    FlattenWF(Build(pairs).buckets);
    SwappedFit(fs);
    BuildKeepsEveryPair(pairs);
    var j :| 0 <= j < |fs| && fs[j] == MakeNode(pairs[r].0, pairs[r].1);
    assert Swapped(fs)[j] == (pairs[r].1, pairs[r].0);
    BuildKeepsEveryPair(Swapped(fs));
  }

  /** Every node of the inverted map is a pair put, with key and value swapped. */
  lemma InvertedNodeIsPair(pairs: seq<Pair>, n: Node)
    requires AllFit(pairs) && n in Flatten(Invert(Build(pairs)).buckets)
    ensures exists q :: 0 <= q < |pairs| && pairs[q] == (NodeValue(n), NodeKey(n))
  {
    var fs := Flatten(Build(pairs).buckets);
    FlattenWF(Build(pairs).buckets);
    SwappedFit(fs);
    StoredNodeIsPair(Swapped(fs), n);
    var q :| 0 <= q < |fs| && Swapped(fs)[q] == (NodeKey(n), NodeValue(n));
    SwappedPairIsNode(fs, NodeKey(n), NodeValue(n), q);
    var m :| m in fs && NodeValue(m) == NodeKey(n) && NodeKey(m) == NodeValue(n);
    StoredNodeIsPair(pairs, m);
  }

  /**
   * Inverting a map twice gives back every definition, when no key was
   * put twice and the inverted map stays within its first capacity.
   */
  lemma InvertTwiceRestores(pairs: seq<Pair>, k: seq<Byte>)
    requires AllFit(pairs) && |pairs| <= DEFAULT_CAPACITY && DistinctKeys(pairs)
    ensures Get(Invert(Invert(Build(pairs))), k) == AssocFirst(pairs, k)
  {
    var u := Invert(Build(pairs));
    var ns := Flatten(u.buckets);
    InvertLookup(u, k);
    FirstKeyForFinds(ns, k);
    if FirstKeyFor(ns, k).Some? {
      var n :| n in ns && NodeValue(n) == k && NodeKey(n) == FirstKeyFor(ns, k).value;
      InvertedNodeIsPair(pairs, n);
      var r :| 0 <= r < |pairs| && pairs[r] == (k, NodeKey(n));
      AssocFirstDistinct(pairs, r);
    } else if AssocFirst(pairs, k).Some? {
      AssocFirstDefined(pairs, k);
      var r :| 0 <= r < |pairs| && pairs[r].0 == k;
      InvertKeepsPair(pairs, r);
      assert false;
    }
  }

  // ------------------------------------------------------------ capacity

  function Pow2(k: nat): nat {
    if k == 0 then 1 else 2 * Pow2(k - 1)
  }

  /** `c` is the smallest DEFAULT_CAPACITY * 2^k that holds `n` entries. */
  ghost predicate SmallestCapacityFor(c: nat, n: nat) {
    exists k: nat :: c == DEFAULT_CAPACITY * Pow2(k) && n <= c && (k == 0 || DEFAULT_CAPACITY * Pow2(k - 1) < n)
  }

  /** After n puts into a fresh Map, capacity is the smallest DEFAULT_CAPACITY * 2^k that is at least n. */
  lemma {:induction false} BuildCapacity(pairs: seq<Pair>)
    requires AllFit(pairs)
    ensures SmallestCapacityFor(Build(pairs).capacity, |pairs|)
    decreases |pairs|
  {
    if pairs == [] {
      assert DEFAULT_CAPACITY * Pow2(0) == DEFAULT_CAPACITY;
    } else {
      var init := pairs[..|pairs| - 1];
      var t := Build(init);
      BuildCapacity(init);
      var k: nat :| t.capacity == DEFAULT_CAPACITY * Pow2(k) && |init| <= t.capacity
        && (k == 0 || DEFAULT_CAPACITY * Pow2(k - 1) < |init|);
      if t.size >= t.capacity {
        assert DEFAULT_CAPACITY * Pow2(k + 1) == 2 * t.capacity;
        assert Build(pairs).capacity == DEFAULT_CAPACITY * Pow2(k + 1);
      } else {
        assert Build(pairs).capacity == DEFAULT_CAPACITY * Pow2(k);
      }
    }
  }
}
