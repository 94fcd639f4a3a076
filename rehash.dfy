/**
 * Map::resize moves every non-empty chain by its head: the whole chain goes
 * to the slot of the head's hash modulo the new capacity. A node behind the
 * head whose own hash lands elsewhere stays in the wrong chain, and get()
 * no longer finds it. This module shows that on a concrete run of puts, then
 * defines the resize the code evidently means (every node rehashed on its
 * own) and proves that with it a Map answers like an association list, the
 * first put of a key winning, however many resizes happen.
 */
module Rehash {
  import opened Options
  import opened CStrings
  import opened Hashing
  import opened Chains
  import opened Dictionary
  import opened DictionaryProps

  // ------------------------------------------------ as written: a lost key

  /**
   * A key held by a chain of the slot it hashes to, but not by that chain's
   * head (whose hash modulo twice the capacity differs) nor by any other
   * chain: get finds it before a resize and answers null after it.
   */
  lemma ResizeStrandsKey(t: Table, k: seq<Byte>)
    requires Valid(t) && t.size >= t.capacity
    requires var i := Slot(t, k);
      && t.buckets[i] != [] && Find(t.buckets[i], k).Some?
      && t.buckets[i][0].hashValue % (2 * t.capacity) != Hash(k) % (2 * t.capacity)
      && forall j, n :: 0 <= j < t.capacity && j != i && n in t.buckets[j] ==> NodeKey(n) != k
    ensures Get(t, k).Some? && Get(Resize(t), k) == None
  {
    var nc := 2 * t.capacity;
    var s := Hash(k) % nc;
    var moved := Scatter(t.buckets, nc);
    assert Get(Resize(t), k) == Find(moved[s], k);
    ScatterSlot(t.buckets, nc, s);
    if moved[s] != [] {
      var i' := LastLander(t.buckets, nc, s);
      assert moved[s] == t.buckets[i'];
      assert i' != Slot(t, k);
      forall j | 0 <= j < |moved[s]| ensures NodeKey(moved[s][j]) != k {
        assert moved[s][j] in t.buckets[i'];
      }
    }
  }

  const AAA: seq<Byte> := [65, 65, 65]   // "AAA"
  const NG: seq<Byte> := [110, 95, 71]   // "n_G"
  const ONE: seq<Byte> := [49]           // "1"
  const TWO: seq<Byte> := [50]           // "2"

  /** The slot both keys share at the default capacity, and where AAA goes when it doubles. */
  const SHARED_SLOT: nat := 46127

  lemma HashOfAAA()
    ensures Hash(AAA) == 193449995
  {
    assert Running(AAA[..1]) == 177638 by {
      assert AAA[..1][..0] == [];
    }
    assert AAA[..2][..1] == AAA[..1];
    assert Running(AAA[..2]) == 5862119;
    assert AAA[..|AAA| - 1] == AAA[..2];
  }

  lemma HashOfNG()
    ensures Hash(NG) == 193499996
  {
    assert Running(NG[..1]) == 177683 by {
      assert NG[..1][..0] == [];
    }
    assert NG[..2][..1] == NG[..1];
    assert Running(NG[..2]) == 5863634;
    assert NG[..|NG| - 1] == NG[..2];
  }

  /** "AAA" and "n_G" hash 50001 apart: one slot at capacity 50001, two slots at 100002. */
  lemma CollidingHashes()
    ensures Hash(AAA) % DEFAULT_CAPACITY == SHARED_SLOT && Hash(NG) % DEFAULT_CAPACITY == SHARED_SLOT
    ensures Hash(AAA) % (2 * DEFAULT_CAPACITY) == SHARED_SLOT
    ensures Hash(NG) % (2 * DEFAULT_CAPACITY) == SHARED_SLOT + DEFAULT_CAPACITY
  {
    HashOfAAA();
    HashOfNG();
    ModUnique(193449995, 50001, 3868, 46127);
    ModUnique(193499996, 50001, 3869, 46127);
    ModUnique(193449995, 100002, 1934, 46127);
    ModUnique(193499996, 100002, 1934, 96128);
  }

  /**
   * put("AAA", "1"), put("n_G", "2"), then put("AAA", "1") again until the
   * Map holds DEFAULT_CAPACITY nodes: the next put resizes it.
   */
  function Colliding(): (ps: seq<Pair>)
    ensures |ps| == DEFAULT_CAPACITY && AllFit(ps)
    ensures ps[0] == (AAA, ONE) && ps[1] == (NG, TWO)
    ensures forall q :: 0 <= q < |ps| ==> ps[q] == (AAA, ONE) || ps[q] == (NG, TWO)
  {
    [(AAA, ONE), (NG, TWO)] + seq(DEFAULT_CAPACITY - 2, _ => (AAA, ONE))
  }

  /** Below capacity, put appends to the one non-empty chain when the key hashes to its slot. */
  lemma PutOneSlot(t: Table, s: nat, chain: seq<Node>, k: seq<Byte>, v: seq<Byte>)
    requires Valid(t) && t.size < t.capacity && s < t.capacity && Fits(k) && Fits(v)
    requires t.buckets == NoChains(t.capacity)[s := chain] && Hash(k) % t.capacity == s
    ensures Put(t, k, v).buckets == NoChains(t.capacity)[s := chain + [MakeNode(k, v)]]
    ensures Put(t, k, v).capacity == t.capacity
  {
  }

  /** Up to DEFAULT_CAPACITY puts of keys of one slot fill that slot's chain in order. */
  lemma {:induction false} BuildOneSlot(pairs: seq<Pair>, s: nat)
    requires AllFit(pairs) && |pairs| <= DEFAULT_CAPACITY && s < DEFAULT_CAPACITY
    requires forall q :: 0 <= q < |pairs| ==> Hash(pairs[q].0) % DEFAULT_CAPACITY == s
    ensures Build(pairs).buckets == NoChains(DEFAULT_CAPACITY)[s := Made(pairs)]
    decreases |pairs|
  {
    if pairs == [] {
      assert NoChains(DEFAULT_CAPACITY)[s := Made(pairs)] == NoChains(DEFAULT_CAPACITY);
    } else {
      var init, last := pairs[..|pairs| - 1], pairs[|pairs| - 1];
      MadeSnoc(pairs);
      assert forall q :: 0 <= q < |init| ==> init[q] == pairs[q];
      BuildOneSlot(init, s);
      PutOneSlot(Build(init), s, Made(init), last.0, last.1);
    }
  }

  /** The Map after the colliding puts: one chain, "AAA" at its head and "n_G" right behind. */
  lemma CollidingTable()
    ensures var t := Build(Colliding());
      && t.size == t.capacity == DEFAULT_CAPACITY
      && t.buckets == NoChains(DEFAULT_CAPACITY)[SHARED_SLOT := Made(Colliding())]
  {
    CollidingHashes();
    BuildOneSlot(Colliding(), SHARED_SLOT);
  }

  /** The colliding puts followed by one more put("AAA", "1"). */
  function OneMore(): (ps: seq<Pair>)
    ensures |ps| == DEFAULT_CAPACITY + 1 && AllFit(ps)
    ensures ps[..DEFAULT_CAPACITY] == Colliding() && ps[DEFAULT_CAPACITY] == (AAA, ONE)
    ensures ps[0] == (AAA, ONE) && ps[1..][0] == (NG, TWO)
  {
    Colliding() + [(AAA, ONE)]
  }

  /** Read as an association list, the colliding puts and one more map "n_G" to "2". */
  lemma OneMoreLookup()
    ensures AssocFirst(OneMore(), NG) == Some(TWO)
  {
  }

  /** The colliding chain: "AAA" at its head, "n_G" second, and get("n_G") finds the latter. */
  lemma CollidingChain()
    ensures Made(Colliding())[0] == MakeNode(AAA, ONE)
    ensures Find(Made(Colliding()), NG) == Some(TWO)
  {
    var chain := Made(Colliding());
    assert chain[1] == MakeNode(NG, TWO);
    FirstMatchUnique(chain, NG, 1);
  }

  /** Before the resize, get("n_G") scans past "AAA" and finds "2". */
  lemma CollidingGet()
    ensures Get(Build(Colliding()), NG) == Some(TWO)
  {
    CollidingTable();
    CollidingHashes();
    CollidingChain();
  }

  /** The resize moves the chain to the slot of "AAA"; the slot of "n_G" is left empty. */
  lemma CollidingResize()
    ensures Get(Resize(Build(Colliding())), NG) == None
  {
    var t := Build(Colliding());
    CollidingTable();
    CollidingHashes();
    CollidingChain();
    ResizeStrandsKey(t, NG);
  }

  /**
   * The run of puts that shows the loss: after the colliding puts get("n_G")
   * answers "2"; one more put("AAA", "1") resizes the Map, the chain moves to
   * the slot of "AAA", and get("n_G") answers null, though no put was undone.
   */
  lemma ResizeLosesKey()
    ensures Get(Build(Colliding()), NG) == Some(TWO)
    ensures AssocFirst(OneMore(), NG) == Some(TWO) && Get(Build(OneMore()), NG) == None
  {
    CollidingGet();
    CollidingResize();
    OneMoreLookup();
    var ps := OneMore();
    assert ps[..|ps| - 1] == Colliding();
    PutThenGet(Build(Colliding()), AAA, ONE, NG);
  }

  // ------------------------------------------- corrected: rehash every node

  /** Every node sits in the chain of its own hash, not just every head. */
  ghost predicate Placed(b: seq<seq<Node>>, cap: nat)
    requires cap > 0
  {
    forall i, j :: 0 <= i < |b| && 0 <= j < |b[i]| ==> b[i][j].hashValue % cap == i
  }

  /** The invariant of a Map whose resize rehashes every node. */
  ghost predicate Sound(t: Table) {
    Valid(t) && Placed(t.buckets, t.capacity)
  }

  /** Each node of `ns`, in order, appended at the tail of the chain of its hash modulo `nc`. */
  function Reinsert(ns: seq<Node>, nc: nat): (b: seq<seq<Node>>)
    requires nc > 0
    ensures |b| == nc
    decreases |ns|
  {
    if ns == [] then NoChains(nc)
    else
      var prev := Reinsert(ns[..|ns| - 1], nc);
      var n := ns[|ns| - 1];
      prev[n.hashValue % nc := prev[n.hashValue % nc] + [n]]
  }

  lemma {:induction false} ReinsertPlaced(ns: seq<Node>, nc: nat)
    requires nc > 0
    ensures Placed(Reinsert(ns, nc), nc)
    decreases |ns|
  {
    if ns != [] {
      ReinsertPlaced(ns[..|ns| - 1], nc);
    }
  }

  /** Reinserting keeps every node, and invents none. */
  lemma {:induction false} ReinsertKeepsNodes(ns: seq<Node>, nc: nat)
    requires nc > 0
    ensures |Flatten(Reinsert(ns, nc))| == |ns|
    ensures forall i, n :: 0 <= i < nc && n in Reinsert(ns, nc)[i] ==> n in ns
    decreases |ns|
  {
    if ns == [] {
      FlattenAllEmpty(nc);
    } else {
      var init, n := ns[..|ns| - 1], ns[|ns| - 1];
      var prev := Reinsert(init, nc);
      ReinsertKeepsNodes(init, nc);
      FlattenUpdateLength(prev, n.hashValue % nc, prev[n.hashValue % nc] + [n]);
      assert forall m :: m in init ==> m in ns;
    }
  }

  /** A well-formed node carries the hash of its own key. */
  lemma KeyHash(n: Node)
    requires WellFormed(n)
    ensures n.hashValue == Hash(NodeKey(n))
  {
  }

  lemma ChainWFInit(ns: seq<Node>)
    requires ChainWF(ns) && ns != []
    ensures ChainWF(ns[..|ns| - 1]) && WellFormed(ns[|ns| - 1])
  {
    assert forall j :: 0 <= j < |ns| - 1 ==> ns[..|ns| - 1][j] == ns[j];
  }

  /** A scan finds k before the last node, or else in the last node. */
  lemma FindSnoc(ns: seq<Node>, k: seq<Byte>)
    requires ns != []
    ensures var init, n := ns[..|ns| - 1], ns[|ns| - 1];
      Find(ns, k) == if Find(init, k).Some? then Find(init, k) else Find([n], k)
  {
    var init, n := ns[..|ns| - 1], ns[|ns| - 1];
    assert init + [n] == ns;
    FindAppend(init, [n], k);
  }

  /** Appending `n` to the chain of its slot: the chain of k's slot now also finds k in `n`. */
  lemma ReinsertFindStep(prev: seq<seq<Node>>, n: Node, nc: nat, k: seq<Byte>)
    requires nc > 0 && |prev| == nc && WellFormed(n)
    ensures var b := prev[n.hashValue % nc := prev[n.hashValue % nc] + [n]];
      var s := Hash(k) % nc;
      Find(b[s], k) == if Find(prev[s], k).Some? then Find(prev[s], k) else Find([n], k)
  {
    var s := Hash(k) % nc;
    if n.hashValue % nc == s {
      FindAppend(prev[s], [n], k);
    } else {
      KeyHash(n);
    }
  }

  /** The chain of k's slot after reinserting `ns` finds k where a scan of `ns` would. */
  lemma {:induction false} ReinsertFind(ns: seq<Node>, nc: nat, k: seq<Byte>)
    requires nc > 0 && ChainWF(ns)
    ensures Find(Reinsert(ns, nc)[Hash(k) % nc], k) == Find(ns, k)
    decreases |ns|
  {
    if ns != [] {
      var init, n := ns[..|ns| - 1], ns[|ns| - 1];
      ChainWFInit(ns);
      ReinsertFind(init, nc, k);
      FindSnoc(ns, k);
      ReinsertFindStep(Reinsert(init, nc), n, nc, k);
    }
  }

  lemma PlacedInit(b: seq<seq<Node>>, cap: nat)
    requires cap > 0 && b != [] && Placed(b, cap) && BucketsWF(b)
    ensures Placed(b[..|b| - 1], cap) && BucketsWF(b[..|b| - 1])
  {
    assert forall i :: 0 <= i < |b| - 1 ==> b[..|b| - 1][i] == b[i];
  }

  /** A chain whose nodes all hash to slot i holds no key of another slot. */
  lemma FindOtherSlot(c: seq<Node>, cap: nat, i: nat, k: seq<Byte>)
    requires cap > 0 && ChainWF(c) && Hash(k) % cap != i
    requires forall j :: 0 <= j < |c| ==> c[j].hashValue % cap == i
    ensures Find(c, k) == None
  {
    forall j | 0 <= j < |c| ensures NodeKey(c[j]) != k {
      KeyHash(c[j]);
    }
  }

  /** Joining the scan of the earlier slots with the chain of slot m - 1. */
  lemma FindJoin(pre: seq<Node>, last: seq<Node>, k: seq<Byte>, s: nat, m: nat, found: Option<seq<Byte>>)
    requires m > 0 && Find(pre, k) == (if s < m - 1 then found else None)
    requires s != m - 1 ==> Find(last, k) == None
    ensures Find(pre + last, k) == if s < m - 1 then found else if s == m - 1 then Find(last, k) else None
  {
    FindAppend(pre, last, k);
  }

  /** With every node in its own slot, a scan of all nodes finds k where the chain of k's slot does. */
  lemma {:induction false} FlattenFind(b: seq<seq<Node>>, cap: nat, k: seq<Byte>)
    requires cap > 0 && |b| <= cap && Placed(b, cap) && BucketsWF(b)
    ensures Find(Flatten(b), k) == if Hash(k) % cap < |b| then Find(b[Hash(k) % cap], k) else None
    decreases |b|
  {
    if b != [] {
      var m := |b|;
      var init, last := b[..m - 1], b[m - 1];
      var s := Hash(k) % cap;
      PlacedInit(b, cap);
      FlattenFind(init, cap, k);
      if s != m - 1 {
        FindOtherSlot(last, cap, m - 1, k);
      }
      var found := if s < m - 1 then Find(b[s], k) else None;
      if s < m - 1 {
        assert init[s] == b[s];
      }
      FindJoin(Flatten(init), last, k, s, m, found);
    }
  }

  lemma PlacedHeads(b: seq<seq<Node>>, cap: nat)
    requires cap > 0 && Placed(b, cap)
    ensures HeadsPlaced(b, cap)
  {
  }

  /** Reinserting well-formed nodes gives well-formed chains, every node in its own slot. */
  lemma ReinsertWF(ns: seq<Node>, nc: nat)
    requires nc > 0 && ChainWF(ns)
    ensures BucketsWF(Reinsert(ns, nc)) && Placed(Reinsert(ns, nc), nc) && HeadsPlaced(Reinsert(ns, nc), nc)
    ensures |Flatten(Reinsert(ns, nc))| == |ns|
  {
    ReinsertKeepsNodes(ns, nc);
    ReinsertPlaced(ns, nc);
    PlacedHeads(Reinsert(ns, nc), nc);
    forall i | 0 <= i < nc ensures ChainWF(Reinsert(ns, nc)[i]) {
      assert forall j :: 0 <= j < |Reinsert(ns, nc)[i]| ==> Reinsert(ns, nc)[i][j] in ns;
    }
  }

  /**
   * Map::resize as intended: when `size` has reached `capacity`, double the
   * capacity and append every node, slot by slot and chain by chain, at the
   * tail of the chain of its own hash modulo the new capacity.
   */
  function FixedResize(t: Table): (r: Table)
    requires Sound(t)
    ensures Sound(r) && r.size == t.size && r.size < r.capacity
    ensures r.capacity == if t.size >= t.capacity then 2 * t.capacity else t.capacity
    ensures t.size < t.capacity ==> r == t
  {
    if t.size >= t.capacity then
      var nc := 2 * t.capacity;
      var ns := Flatten(t.buckets);
      FlattenWF(t.buckets);
      ReinsertWF(ns, nc);
      Table(Reinsert(ns, nc), t.size, nc)
    else
      t
  }

  /** The intended resize changes no answer of get. */
  lemma FixedResizeKeepsGet(t: Table, k: seq<Byte>)
    requires Sound(t)
    ensures Get(FixedResize(t), k) == Get(t, k)
  {
    if t.size >= t.capacity {
      FlattenWF(t.buckets);
      ReinsertFind(Flatten(t.buckets), 2 * t.capacity, k);
      FlattenFind(t.buckets, t.capacity, k);
    }
  }

  /** Appending a node at the chain of its own key keeps every node in its own slot. */
  lemma AppendPlaced(t: Table, k: seq<Byte>, v: seq<Byte>)
    requires Sound(t) && t.size < t.capacity && Fits(k) && Fits(v)
    ensures Placed(Append(t, k, v).buckets, t.capacity)
  {
    var b: seq<seq<Node>> := Append(t, k, v).buckets;
    var s := Slot(t, k);
    forall i, j | 0 <= i < |b| && 0 <= j < |b[i]| ensures b[i][j].hashValue % t.capacity == i {
      if i == s && j == |t.buckets[s]| {
        assert b[i][j] == MakeNode(k, v);
      } else {
        assert b[i][j] == t.buckets[i][j];
      }
    }
  }

  /** Map::put with the intended resize: resize if due, then append at the tail of the key's chain. */
  function FixedPut(t: Table, k: seq<Byte>, v: seq<Byte>): (r: Table)
    requires Sound(t) && Fits(k) && Fits(v)
    ensures Sound(r) && r.size == t.size + 1
    ensures r.capacity == if t.size >= t.capacity then 2 * t.capacity else t.capacity
  {
    var resized := FixedResize(t);
    AppendPlaced(resized, k, v);
    Append(resized, k, v)
  }

  /** put then get with the intended resize: a first-write-wins map, with or without a resize. */
  lemma FixedPutThenGet(t: Table, k: seq<Byte>, v: seq<Byte>, k': seq<Byte>)
    requires Sound(t) && Fits(k) && Fits(v)
    ensures Get(FixedPut(t, k, v), k') == if k' == k then Some(Get(t, k).GetOr(v)) else Get(t, k')
  {
    var r := FixedResize(t);
    FixedResizeKeepsGet(t, k);
    FixedResizeKeepsGet(t, k');
    assert FixedPut(t, k, v) == Put(r, k, v);
    PutThenGetNoResize(r, k, v, k');
  }

  /** A fresh Map with the intended resize after put(k, v) for every pair, in order. */
  function FixedBuild(pairs: seq<Pair>): (r: Table)
    requires AllFit(pairs)
    ensures Sound(r) && r.size == |pairs|
    decreases |pairs|
  {
    if pairs == [] then Empty()
    else
      var last := pairs[|pairs| - 1];
      FixedPut(FixedBuild(pairs[..|pairs| - 1]), last.0, last.1)
  }

  /** With the intended resize, get answers the value of the first pair put with the key, for any number of puts. */
  lemma {:induction false} FixedBuildLookup(pairs: seq<Pair>, k: seq<Byte>)
    requires AllFit(pairs)
    ensures Get(FixedBuild(pairs), k) == AssocFirst(pairs, k)
    decreases |pairs|
  {
    if pairs != [] {
      var init, last := pairs[..|pairs| - 1], pairs[|pairs| - 1];
      FixedBuildLookup(init, k);
      FixedPutThenGet(FixedBuild(init), last.0, last.1, k);
      AssocFirstLast(pairs, k);
    }
  }

  /** Up to DEFAULT_CAPACITY puts never resize, so the Map as written and the corrected one agree. */
  lemma {:induction false} FixedBuildAgrees(pairs: seq<Pair>)
    requires AllFit(pairs) && |pairs| <= DEFAULT_CAPACITY
    ensures FixedBuild(pairs) == Build(pairs)
    decreases |pairs|
  {
    if pairs != [] {
      FixedBuildAgrees(pairs[..|pairs| - 1]);
    }
  }

  /** On the run that loses "n_G" as written, the corrected Map still answers "2". */
  lemma FixedKeepsKey()
    ensures Get(FixedBuild(OneMore()), NG) == Some(TWO)
  {
    FixedBuildLookup(OneMore(), NG);
    OneMoreLookup();
  }
}
