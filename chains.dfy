/**
 * Map::Node and the chains of nodes hanging off each bucket. A linked chain
 * `head -> next -> ... -> nullptr` is the sequence of its nodes in link order;
 * an empty bucket (a null head pointer) is the empty sequence.
 */
module Chains {
  import opened Options
  import opened CStrings
  import opened Hashing

  /** A node: its key and value buffers and the hash cached at insertion. */
  datatype Node = Node(key: seq<Byte>, value: seq<Byte>, hashValue: nat)

  function NodeKey(n: Node): seq<Byte> { CStr(n.key) }

  function NodeValue(n: Node): seq<Byte> { CStr(n.value) }

  /** The node `put(k, v)` allocates: both strings strncpy'd into fresh buffers. */
  function MakeNode(k: seq<Byte>, v: seq<Byte>): (n: Node)
    requires Fits(k) && Fits(v)
    ensures NodeKey(n) == k && NodeValue(n) == v && n.hashValue == Hash(k)
    ensures FitsBuffer(n.key) && FitsBuffer(n.value)
    ensures |n.key| == MAX_CSTRING_SIZE && |n.value| == MAX_CSTRING_SIZE
  {
    Node(Pad(k), Pad(v), Hash(k))
  }

  /** A node as put() builds it: padded buffers and the hash of its key. */
  ghost predicate WellFormed(n: Node) {
    Fits(NodeKey(n)) && Fits(NodeValue(n)) && n == MakeNode(NodeKey(n), NodeValue(n))
  }

  /** The buffers of a well-formed node hold its key and value, terminated. */
  lemma NodeBuffers(n: Node)
    requires WellFormed(n)
    ensures FitsBuffer(n.key) && FitsBuffer(n.value)
  {
  }

  ghost predicate ChainWF(c: seq<Node>) {
    forall j :: 0 <= j < |c| ==> WellFormed(c[j])
  }

  ghost predicate BucketsWF(b: seq<seq<Node>>) {
    forall i :: 0 <= i < |b| ==> ChainWF(b[i])
  }

  // ------------------------------------------------------------ lookup

  /** Position of the first node of `c` whose key is `k`, or `|c|` if none. */
  function FirstMatch(c: seq<Node>, k: seq<Byte>): (i: nat)
    ensures i <= |c|
    ensures forall j :: 0 <= j < i ==> NodeKey(c[j]) != k
    ensures i < |c| ==> NodeKey(c[i]) == k
  {
    if c == [] then 0 else if NodeKey(c[0]) == k then 0 else 1 + FirstMatch(c[1..], k)
  }

  /** The value of the first node of `c` whose key is `k`; None if there is none. */
  function Find(c: seq<Node>, k: seq<Byte>): (r: Option<seq<Byte>>)
    ensures r.None? <==> forall j :: 0 <= j < |c| ==> NodeKey(c[j]) != k
    ensures r.Some? ==>
      exists j :: 0 <= j < |c| && NodeKey(c[j]) == k && r.value == NodeValue(c[j]) &&
                  (forall i :: 0 <= i < j ==> NodeKey(c[i]) != k)
  {
    var i := FirstMatch(c, k);
    if i < |c| then Some(NodeValue(c[i])) else None
  }

  lemma FirstMatchUnique(c: seq<Node>, k: seq<Byte>, i: nat)
    requires i <= |c|
    requires forall j :: 0 <= j < i ==> NodeKey(c[j]) != k
    requires i < |c| ==> NodeKey(c[i]) == k
    ensures FirstMatch(c, k) == i
  {
  }

  /** A scan of `a + b` finds the first match of `a`, else that of `b`. */
  lemma FindAppend(a: seq<Node>, b: seq<Node>, k: seq<Byte>)
    ensures Find(a + b, k) == if Find(a, k).Some? then Find(a, k) else Find(b, k)
  {
    var fa := FirstMatch(a, k);
    if fa < |a| {
      FirstMatchUnique(a + b, k, fa);
    } else {
      var fb := FirstMatch(b, k);
      assert forall j :: |a| <= j < |a| + fb ==> (a + b)[j] == b[j - |a|];
      FirstMatchUnique(a + b, k, |a| + fb);
      if fb < |b| {
        assert (a + b)[|a| + fb] == b[fb];
      }
    }
  }

  /** The first node in `c` whose value is `v`, answered with its key. */
  function FirstKeyFor(c: seq<Node>, v: seq<Byte>): Option<seq<Byte>>
  {
    if c == [] then None
    else if NodeValue(c[0]) == v then Some(NodeKey(c[0]))
    else FirstKeyFor(c[1..], v)
  }

  /** FirstKeyFor finds a key exactly when some node holds `v`, and it is the key of such a node. */
  lemma {:induction false} FirstKeyForFinds(c: seq<Node>, v: seq<Byte>)
    ensures FirstKeyFor(c, v).None? <==> forall n :: n in c ==> NodeValue(n) != v
    ensures FirstKeyFor(c, v).Some? ==> exists n :: n in c && NodeValue(n) == v && NodeKey(n) == FirstKeyFor(c, v).value
  {
    if c != [] {
      FirstKeyForFinds(c[1..], v);
      assert forall n :: n in c ==> n == c[0] || n in c[1..];
      if NodeValue(c[0]) == v {
        assert c[0] in c;
      }
    }
  }

  // ---------------------------------------------------------- traversal

  /** Every node of the table: slot 0 .. capacity-1, each chain in link order. */
  function Flatten(b: seq<seq<Node>>): seq<Node>
    decreases |b|
  {
    if b == [] then [] else Flatten(b[..|b| - 1]) + b[|b| - 1]
  }

  /** Scanning one more slot appends its chain. */
  lemma FlattenStep(b: seq<seq<Node>>, i: nat)
    requires i < |b|
    ensures Flatten(b[..i + 1]) == Flatten(b[..i]) + b[i]
  {
    assert b[..i + 1][..i] == b[..i];
  }

  /** Splitting off the last node of `c` after a prefix `a`. */
  lemma AppendLast(a: seq<Node>, c: seq<Node>)
    requires c != []
    ensures (a + c[..|c| - 1]) + [c[|c| - 1]] == a + c
  {
    assert c == c[..|c| - 1] + [c[|c| - 1]];
  }

  /** A bucket array of `n` null heads. */
  function NoChains(n: nat): (b: seq<seq<Node>>)
    ensures |b| == n && forall i :: 0 <= i < n ==> b[i] == []
  {
    seq(n, _ => [])
  }

  lemma {:induction false} FlattenAllEmpty(n: nat)
    ensures Flatten(NoChains(n)) == []
  {
    if n > 0 {
      assert NoChains(n)[..n - 1] == NoChains(n - 1);
      FlattenAllEmpty(n - 1);
    }
  }

  /** Replacing one chain changes the node count by the difference of lengths. */
  lemma {:induction false} FlattenUpdateLength(b: seq<seq<Node>>, i: nat, c: seq<Node>)
    requires i < |b|
    ensures |Flatten(b[i := c])| == |Flatten(b)| - |b[i]| + |c|
    decreases |b|
  {
    var n := |b|;
    var b' := b[i := c];
    if i == n - 1 {
      assert b'[..n - 1] == b[..n - 1];
    } else {
      assert b'[..n - 1] == b[..n - 1][i := c];
      FlattenUpdateLength(b[..n - 1], i, c);
    }
  }

  lemma UnionShuffle(x: multiset<Node>, y: multiset<Node>, z: multiset<Node>, w: multiset<Node>, e: multiset<Node>)
    requires x + y == z + w
    ensures (x + e) + y == (z + e) + w
  {
    assert (x + e) + y == (x + y) + e;
    assert (z + e) + w == (z + w) + e;
  }

  lemma UnionCancel(x: multiset<Node>, y: multiset<Node>, z: multiset<Node>, e: multiset<Node>)
    requires x + y == z + (y + e)
    ensures x == z + e
  {
    forall n ensures x[n] == (z + e)[n] {
      assert (x + y)[n] == (z + (y + e))[n];
    }
  }

  /** Replacing one chain swaps that chain's nodes for the new ones, and keeps every other node. */
  lemma {:induction false} FlattenUpdateMultiset(b: seq<seq<Node>>, i: nat, c: seq<Node>)
    requires i < |b|
    ensures multiset(Flatten(b[i := c])) + multiset(b[i]) == multiset(Flatten(b)) + multiset(c)
    decreases |b|
  {
    var n := |b|;
    var b' := b[i := c];
    assert Flatten(b) == Flatten(b[..n - 1]) + b[n - 1];
    assert Flatten(b') == Flatten(b'[..n - 1]) + b'[n - 1];
    if i == n - 1 {
      assert b'[..n - 1] == b[..n - 1];
    } else {
      assert b'[..n - 1] == b[..n - 1][i := c];
      assert b[..n - 1][i] == b[i] && b'[n - 1] == b[n - 1];
      FlattenUpdateMultiset(b[..n - 1], i, c);
      UnionShuffle(multiset(Flatten(b[..n - 1][i := c])), multiset(b[i]), multiset(Flatten(b[..n - 1])), multiset(c), multiset(b[n - 1]));
    }
  }

  /** Every node of a well-formed table is well formed. */
  lemma {:induction false} FlattenWF(b: seq<seq<Node>>)
    requires BucketsWF(b)
    ensures ChainWF(Flatten(b))
    decreases |b|
  {
    if b != [] {
      FlattenWF(b[..|b| - 1]);
      assert ChainWF(b[|b| - 1]);
    }
  }

  /** A node of the traversal lies in some chain. */
  lemma {:induction false} FlattenMember(b: seq<seq<Node>>, n: Node)
    requires n in Flatten(b)
    ensures exists i :: 0 <= i < |b| && n in b[i]
    decreases |b|
  {
    var m := |b|;
    if n !in b[m - 1] {
      FlattenMember(b[..m - 1], n);
      var i :| 0 <= i < m - 1 && n in b[..m - 1][i];
      assert b[..m - 1][i] == b[i];
    }
  }

  /** A node of some chain is in the traversal. */
  lemma {:induction false} MemberFlatten(b: seq<seq<Node>>, i: nat, n: Node)
    requires i < |b| && n in b[i]
    ensures n in Flatten(b)
    decreases |b|
  {
    if i < |b| - 1 {
      assert b[..|b| - 1][i] == b[i];
      MemberFlatten(b[..|b| - 1], i, n);
    }
  }

  // -------------------------------------------------------------- resize

  /** Whether the chain at old slot `i` is non-empty and its head lands on slot `j`. */
  ghost predicate Lands(chains: seq<seq<Node>>, nc: nat, i: int, j: nat)
    requires nc > 0
  {
    0 <= i < |chains| && chains[i] != [] && chains[i][0].hashValue % nc == j
  }

  /**
   * The bucket array resize() builds: old slots are scanned in index order
   * and each non-empty chain is stored whole at the slot of its head's hash
   * modulo the new capacity, overwriting whatever an earlier head put there.
   */
  function Scatter(chains: seq<seq<Node>>, nc: nat): (r: seq<seq<Node>>)
    requires nc > 0
    ensures |r| == nc
    decreases |chains|
  {
    if chains == [] then NoChains(nc)
    else
      var prev := Scatter(chains[..|chains| - 1], nc);
      var c := chains[|chains| - 1];
      if c == [] then prev else prev[c[0].hashValue % nc := c]
  }

  /** One more old slot scanned: its chain, if any, overwrites the slot of its head. */
  lemma ScatterStep(chains: seq<seq<Node>>, i: nat, nc: nat)
    requires nc > 0 && i < |chains|
    ensures Scatter(chains[..i + 1], nc) ==
      if chains[i] == [] then Scatter(chains[..i], nc)
      else Scatter(chains[..i], nc)[chains[i][0].hashValue % nc := chains[i]]
  {
    assert chains[..i + 1][..i] == chains[..i];
  }

  /**
   * Slot `j` of the new array is empty exactly when no head lands on it, and
   * otherwise holds the chain of the LAST old slot whose head lands on it.
   */
  lemma {:induction false} ScatterSlot(chains: seq<seq<Node>>, nc: nat, j: nat)
    requires nc > 0 && j < nc
    ensures Scatter(chains, nc)[j] == [] <==> forall i :: 0 <= i < |chains| ==> !Lands(chains, nc, i, j)
    ensures forall i :: Lands(chains, nc, i, j) && (forall i' :: i < i' < |chains| ==> !Lands(chains, nc, i', j))
                    ==> Scatter(chains, nc)[j] == chains[i]
    decreases |chains|
  {
    if chains != [] {
      var m := |chains|;
      var init := chains[..m - 1];
      ScatterSlot(init, nc, j);
      assert forall i :: 0 <= i < m - 1 ==> (Lands(chains, nc, i, j) <==> Lands(init, nc, i, j));
      if Lands(chains, nc, m - 1, j) {
        assert Scatter(chains, nc)[j] == chains[m - 1];
      } else {
        assert Scatter(chains, nc)[j] == Scatter(init, nc)[j];
      }
    }
  }

  /** Each slot of the new array is empty or holds one whole old chain. */
  lemma {:induction false} ScatterChainsAreOld(chains: seq<seq<Node>>, nc: nat, j: nat)
    requires nc > 0 && j < nc
    ensures Scatter(chains, nc)[j] == [] || exists i :: 0 <= i < |chains| && Scatter(chains, nc)[j] == chains[i]
    decreases |chains|
  {
    if chains != [] {
      var m := |chains|;
      var init := chains[..m - 1];
      ScatterChainsAreOld(init, nc, j);
      if Scatter(chains, nc)[j] != [] && Scatter(chains, nc)[j] != chains[m - 1] {
        var i :| 0 <= i < m - 1 && Scatter(init, nc)[j] == init[i];
        assert init[i] == chains[i];
      }
    }
  }

  /** After a resize, every head sits in the slot of its own hash. */
  lemma ScatterHeadsPlaced(chains: seq<seq<Node>>, nc: nat)
    requires nc > 0
    ensures forall j :: 0 <= j < nc && Scatter(chains, nc)[j] != [] ==> Scatter(chains, nc)[j][0].hashValue % nc == j
  {
    forall j | 0 <= j < nc && Scatter(chains, nc)[j] != []
      ensures Scatter(chains, nc)[j][0].hashValue % nc == j
    {
      ScatterSlot(chains, nc, j);
      var i := LastLander(chains, nc, j);
    }
  }

  /** The index of the last old slot whose head lands on `j`. */
  lemma LastLander(chains: seq<seq<Node>>, nc: nat, j: nat) returns (i: nat)
    requires nc > 0 && j < nc
    requires exists i :: 0 <= i < |chains| && Lands(chains, nc, i, j)
    ensures Lands(chains, nc, i, j) && forall i' :: i < i' < |chains| ==> !Lands(chains, nc, i', j)
  {
    i :| 0 <= i < |chains| && Lands(chains, nc, i, j);
    while exists i' :: i < i' < |chains| && Lands(chains, nc, i', j)
      invariant Lands(chains, nc, i, j)
      decreases |chains| - i
    {
      var later :| i < later < |chains| && Lands(chains, nc, later, j);
      i := later;
    }
  }

  // Facts about `%` by a variable divisor, which the solver does not find alone.

  lemma {:induction false} MulAtLeast(d: int, m: int)
    requires d >= 1 && m >= 0
    ensures d * m >= m
    decreases d
  {
    if d > 1 {
      MulAtLeast(d - 1, m);
      assert d * m == (d - 1) * m + m;
    }
  }

  lemma ZeroFactor(d: int, m: int)
    requires m > 0 && -m < d * m < m
    ensures d == 0
  {
    if d >= 1 {
      MulAtLeast(d, m);
    } else if d <= -1 {
      MulAtLeast(-d, m);
    }
  }

  /** Quotient and remainder are the only such pair. */
  lemma ModUnique(h: int, m: int, a: int, b: int)
    requires m > 0 && 0 <= b < m && h == a * m + b
    ensures h % m == b && h / m == a
  {
    var a', b' := h / m, h % m;
    assert (a' - a) * m == b - b';
    ZeroFactor(a' - a, m);
  }

  /** The slot modulo the old capacity is recovered from the slot modulo twice it. */
  lemma ModOfDouble(h: nat, cap: nat)
    requires cap > 0
    ensures (h % (2 * cap)) % cap == h % cap
  {
    var q := h / (2 * cap);
    var r := h % (2 * cap);
    assert h == (2 * q) * cap + r;
    if r < cap {
      ModUnique(h, cap, 2 * q, r);
      ModUnique(r, cap, 0, r);
    } else {
      assert h == (2 * q + 1) * cap + (r - cap);
      ModUnique(h, cap, 2 * q + 1, r - cap);
      ModUnique(r, cap, 1, r - cap);
    }
  }

  /** Heads in their own slots of the old array: the invariant resize relies on. */
  ghost predicate HeadsPlaced(b: seq<seq<Node>>, cap: nat)
    requires cap > 0
  {
    forall i :: 0 <= i < |b| && b[i] != [] ==> b[i][0].hashValue % cap == i
  }

  lemma HeadsPlacedInit(chains: seq<seq<Node>>, cap: nat)
    requires cap > 0 && chains != [] && HeadsPlaced(chains, cap)
    ensures HeadsPlaced(chains[..|chains| - 1], cap)
  {
    assert forall i :: 0 <= i < |chains| - 1 ==> chains[..|chains| - 1][i] == chains[i];
  }

  /**
   * When every head sits in its own slot and the capacity doubles, no two
   * heads land on the same new slot: resize keeps every node.
   */
  lemma {:induction false} ScatterKeepsEveryNode(chains: seq<seq<Node>>, cap: nat)
    requires cap > 0 && |chains| <= cap && HeadsPlaced(chains, cap)
    ensures forall j :: 0 <= j < 2 * cap && Scatter(chains, 2 * cap)[j] != [] ==> j % cap < |chains|
    ensures |Flatten(Scatter(chains, 2 * cap))| == |Flatten(chains)|
    decreases |chains|
  {
    if chains == [] {
      FlattenAllEmpty(2 * cap);
    } else {
      var m := |chains|;
      var init := chains[..m - 1];
      HeadsPlacedInit(chains, cap);
      ScatterKeepsEveryNode(init, cap);
      var prev := Scatter(init, 2 * cap);
      var c := chains[m - 1];
      assert |Flatten(chains)| == |Flatten(init)| + |c|;
      if c != [] {
        var s := c[0].hashValue % (2 * cap);
        ModOfDouble(c[0].hashValue, cap);
        assert s % cap == m - 1;
        assert prev[s] == [];
        FlattenUpdateLength(prev, s, c);
        assert Scatter(chains, 2 * cap) == prev[s := c];
      } else {
        assert Scatter(chains, 2 * cap) == prev;
      }
    }
  }

  /** Under the same conditions the new array holds exactly the old nodes, each as often as before. */
  lemma {:induction false} ScatterKeepsNodeCounts(chains: seq<seq<Node>>, cap: nat)
    requires cap > 0 && |chains| <= cap && HeadsPlaced(chains, cap)
    ensures multiset(Flatten(Scatter(chains, 2 * cap))) == multiset(Flatten(chains))
    decreases |chains|
  {
    if chains == [] {
      FlattenAllEmpty(2 * cap);
    } else {
      var m := |chains|;
      var init := chains[..m - 1];
      HeadsPlacedInit(chains, cap);
      ScatterKeepsNodeCounts(init, cap);
      var prev := Scatter(init, 2 * cap);
      var c := chains[m - 1];
      assert Flatten(chains) == Flatten(init) + c;
      if c != [] {
        var s := c[0].hashValue % (2 * cap);
        ScatterKeepsEveryNode(init, cap);
        ModOfDouble(c[0].hashValue, cap);
        assert prev[s] == [];
        FlattenUpdateMultiset(prev, s, c);
        assert Scatter(chains, 2 * cap) == prev[s := c];
      } else {
        assert Scatter(chains, 2 * cap) == prev;
      }
    }
  }

  /** With heads in their own slots and the capacity doubled, every chain survives whole. */
  lemma ScatterKeepsChain(chains: seq<seq<Node>>, cap: nat, i: nat)
    requires cap > 0 && i < |chains| <= cap && HeadsPlaced(chains, cap) && chains[i] != []
    ensures Scatter(chains, 2 * cap)[chains[i][0].hashValue % (2 * cap)] == chains[i]
  {
    var j := chains[i][0].hashValue % (2 * cap);
    ModOfDouble(chains[i][0].hashValue, cap);
    forall i' | i < i' < |chains| ensures !Lands(chains, 2 * cap, i', j) {
      if Lands(chains, 2 * cap, i', j) {
        ModOfDouble(chains[i'][0].hashValue, cap);
      }
    }
    ScatterSlot(chains, 2 * cap, j);
  }

  /** Every node before a resize is still stored somewhere after it. */
  lemma ScatterKeepsMember(chains: seq<seq<Node>>, cap: nat, n: Node)
    requires cap > 0 && |chains| <= cap && HeadsPlaced(chains, cap) && n in Flatten(chains)
    ensures n in Flatten(Scatter(chains, 2 * cap))
  {
    FlattenMember(chains, n);
    var i :| 0 <= i < |chains| && n in chains[i];
    ScatterKeepsChain(chains, cap, i);
    MemberFlatten(Scatter(chains, 2 * cap), chains[i][0].hashValue % (2 * cap), n);
  }

  /** Nodes of the new array are nodes of the old one. */
  lemma ScatterNodesWF(chains: seq<seq<Node>>, nc: nat)
    requires nc > 0 && BucketsWF(chains)
    ensures BucketsWF(Scatter(chains, nc))
  {
    forall j | 0 <= j < nc ensures ChainWF(Scatter(chains, nc)[j]) {
      ScatterChainsAreOld(chains, nc, j);
    }
  }
}
