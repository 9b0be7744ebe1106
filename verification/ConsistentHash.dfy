/** The client's consistent-hash ring. */
module ConsistentHash {
  import opened Sequences
  import opened Registry
  import opened Text

  type Hash = h: int | 0 <= h < 0x1_0000_0000

  /** Virtual nodes per instance. */
  const REPLICAS: nat := 160

  function NodeText(x: Instance, v: nat): string {
    x.ip + ":" + Itoa(x.port) + "#" + Itoa(v)
  }

  /** The hash of a virtual node; `crc` is the 32-bit checksum. */
  function VHash(crc: string -> Hash, x: Instance, v: nat): Hash {
    crc(NodeText(x, v))
  }

  lemma NodeTextExample(x: Instance)
    requires x.ip == "10.0.0.1" && x.port == 8080
    ensures NodeText(x, 159) == "10.0.0.1:8080#159"
  {
    assert Digits(8080) == Digits(808) + "0";
    assert Digits(808) == Digits(80) + "8";
    assert Digits(80) == "80";
    assert Digits(159) == Digits(15) + "9";
    assert Digits(15) == "15";
  }

  /** A separator that does not occur in what follows can be found from the end. */
  lemma LastSeparator(a: string, x: string, b: string, y: string, c: char)
    requires a + [c] + x == b + [c] + y && c !in x && c !in y
    ensures a == b && x == y
  {
    NotBehind(a, x, b, y, c);
    NotBehind(b, y, a, x, c);
    var s := a + [c] + x;
    assert a == s[..|a|] && x == s[|a| + 1..];
    assert b == (b + [c] + y)[..|b|] && y == (b + [c] + y)[|b| + 1..];
  }

  lemma NotBehind(a: string, x: string, b: string, y: string, c: char)
    requires a + [c] + x == b + [c] + y && c !in x
    ensures |b| <= |a|
  {
    assert (b + [c] + y)[|b|] == c;
    assert forall i :: 0 <= i < |x| ==> (a + [c] + x)[|a| + 1 + i] == x[i] && x[i] in x;
  }

  lemma NoSeparator(n: int)
    ensures ':' !in Itoa(n) && '#' !in Itoa(n)
  {
    ItoaReads(n);
  }

  /** The text of a virtual node tells address and number, whatever the ip looks like. */
  lemma NodeTextTells(x: Instance, v: nat, y: Instance, w: nat)
    requires NodeText(x, v) == NodeText(y, w)
    ensures x.ip == y.ip && x.port == y.port && v == w
  {
    NoSeparator(v);
    NoSeparator(w);
    NoSeparator(x.port);
    NoSeparator(y.port);
    LastSeparator(x.ip + ":" + Itoa(x.port), Itoa(v), y.ip + ":" + Itoa(y.port), Itoa(w), '#');
    LastSeparator(x.ip, Itoa(x.port), y.ip, Itoa(y.port), ':');
    ItoaInjective(v, w);
    ItoaInjective(x.port, y.port);
  }

  ghost predicate At(crc: string -> Hash, x: Instance, h: Hash) {
    exists v: nat :: v < REPLICAS && VHash(crc, x, v) == h
  }

  ghost predicate OnRing(crc: string -> Hash, s: set<Instance>, h: Hash) {
    exists x :: x in s && At(crc, x, h)
  }

  /** The least point of the ring not below `key`, or the least of all when there is none. */
  ghost predicate IsNext(crc: string -> Hash, s: set<Instance>, key: Hash, h: Hash) {
    && OnRing(crc, s, h)
    && forall g: Hash :: OnRing(crc, s, g) ==> if h >= key then g >= h || g < key else h <= g < key
  }

  /** `x` may be chosen for `key`: it has a virtual node at the next point. */
  ghost predicate Chosen(crc: string -> Hash, s: set<Instance>, key: Hash, x: Instance) {
    x in s && exists h :: At(crc, x, h) && IsNext(crc, s, key, h)
  }

  /** No virtual node lies nearer to the key than `h`, clockwise on the ring of 2^32 points. */
  ghost predicate Nearest(crc: string -> Hash, s: set<Instance>, key: Hash, h: Hash) {
    forall y, w: nat :: y in s && w < 160 ==>
                          (h - key) % 0x1_0000_0000 <= (VHash(crc, y, w) - key) % 0x1_0000_0000
  }

  lemma ClockwiseOrder(key: Hash, h: Hash, g: Hash)
    ensures (if h >= key then g >= h || g < key else h <= g < key) <==>
            (h - key) % 0x1_0000_0000 <= (g - key) % 0x1_0000_0000
  {
    Around(key, h);
    Around(key, g);
  }

  lemma Around(key: Hash, h: Hash)
    ensures (h - key) % 0x1_0000_0000 == if h >= key then h - key else h - key + 0x1_0000_0000
  {
  }

  lemma NextIsNearest(crc: string -> Hash, s: set<Instance>, key: Hash, h: Hash)
    requires OnRing(crc, s, h)
    ensures IsNext(crc, s, key, h) <==> Nearest(crc, s, key, h)
  {
    if IsNext(crc, s, key, h) {
      forall y, w: nat | y in s && w < 160
        ensures (h - key) % 0x1_0000_0000 <= (VHash(crc, y, w) - key) % 0x1_0000_0000
      {
        assert At(crc, y, VHash(crc, y, w)) && OnRing(crc, s, VHash(crc, y, w));
        ClockwiseOrder(key, h, VHash(crc, y, w));
      }
    }
    if Nearest(crc, s, key, h) {
      forall g: Hash | OnRing(crc, s, g) ensures if h >= key then g >= h || g < key else h <= g < key {
        var y :| y in s && At(crc, y, g);
        var w: nat :| w < REPLICAS && VHash(crc, y, w) == g;
        ClockwiseOrder(key, h, g);
      }
    }
  }

  /** So an instance may be chosen exactly when one of its 160 points is the nearest clockwise. */
  lemma ChosenIsNearest(crc: string -> Hash, s: set<Instance>, key: Hash, x: Instance)
    ensures Chosen(crc, s, key, x) <==>
            x in s && exists v: nat :: v < 160 && Nearest(crc, s, key, VHash(crc, x, v))
  {
    if Chosen(crc, s, key, x) {
      var h :| At(crc, x, h) && IsNext(crc, s, key, h);
      var v: nat :| v < REPLICAS && VHash(crc, x, v) == h;
      NextIsNearest(crc, s, key, h);
    }
    if v: nat :| v < 160 && x in s && Nearest(crc, s, key, VHash(crc, x, v)) {
      var h := VHash(crc, x, v);
      assert At(crc, x, h) && OnRing(crc, s, h);
      NextIsNearest(crc, s, key, h);
    }
  }

  // ---------- the lookup ----------

  datatype RingNode = RingNode(hash: Hash, idx: nat)

  ghost predicate Ordered(ring: seq<RingNode>) {
    forall i, j :: 0 <= i < j < |ring| ==> ring[i].hash <= ring[j].hash
  }

  predicate HashAtMost(a: RingNode, b: RingNode) {
    a.hash <= b.hash
  }

  /** `sort.Slice` by hash. */
  method SortRing(ring: seq<RingNode>) returns (r: seq<RingNode>)
    ensures Ordered(r)
    ensures multiset(r) == multiset(ring)
  {
    r := SortBy(HashAtMost, ring);
  }

  /** `sort.Search` on the hashes: the first index that is not below `key`. */
  method Search(ring: seq<RingNode>, key: Hash) returns (i: nat)
    requires Ordered(ring)
    ensures i <= |ring|
    ensures forall k :: 0 <= k < i ==> ring[k].hash < key
    ensures forall k :: i <= k < |ring| ==> ring[k].hash >= key
  {
    i := 0;
    var j := |ring|;
    while i < j
      invariant 0 <= i <= j <= |ring|
      invariant forall k :: 0 <= k < i ==> ring[k].hash < key
      invariant forall k :: j <= k < |ring| ==> ring[k].hash >= key
    {
      var h := (i + j) / 2;
      if ring[h].hash < key {
        i := h + 1;
      } else {
        j := h;
      }
    }
  }

  ghost predicate IsVirtualNode(crc: string -> Hash, instances: seq<Instance>, n: RingNode) {
    n.idx < |instances| && At(crc, instances[n.idx], n.hash)
  }

  /** The ring holds virtual nodes only, and the first `v` of instance `i`. */
  ghost predicate AllVirtual(crc: string -> Hash, instances: seq<Instance>, ring: seq<RingNode>) {
    forall n :: n in ring ==> IsVirtualNode(crc, instances, n)
  }

  ghost predicate HoldsNodes(crc: string -> Hash, instances: seq<Instance>, ring: seq<RingNode>, i: nat, v: nat)
    requires i < |instances|
  {
    forall w: nat :: w < v ==> RingNode(VHash(crc, instances[i], w), i) in ring
  }

  ghost predicate HoldsAll(crc: string -> Hash, instances: seq<Instance>, ring: seq<RingNode>, n: nat)
    requires n <= |instances|
  {
    forall i: nat :: i < n ==> HoldsNodes(crc, instances, ring, i, REPLICAS)
  }

  lemma RingGrows(crc: string -> Hash, instances: seq<Instance>, ring: seq<RingNode>, i: nat, v: nat)
    requires i < |instances| && v < REPLICAS
    requires AllVirtual(crc, instances, ring) && HoldsAll(crc, instances, ring, i)
    requires HoldsNodes(crc, instances, ring, i, v)
    ensures var longer := ring + [RingNode(VHash(crc, instances[i], v), i)];
            AllVirtual(crc, instances, longer) && HoldsAll(crc, instances, longer, i)
            && HoldsNodes(crc, instances, longer, i, v + 1)
  {
    var node := RingNode(VHash(crc, instances[i], v), i);
    assert IsVirtualNode(crc, instances, node);
    assert forall n :: n in ring + [node] <==> n in ring || n == node;
    forall j: nat | j < i ensures HoldsNodes(crc, instances, ring + [node], j, REPLICAS) {
      assert HoldsNodes(crc, instances, ring, j, REPLICAS);
    }
  }

  /** The inner loop: the virtual nodes of one instance. */
  method AppendNodes(crc: string -> Hash, instances: seq<Instance>, i: nat, before: seq<RingNode>)
    returns (ring: seq<RingNode>)
    requires i < |instances| && AllVirtual(crc, instances, before) && HoldsAll(crc, instances, before, i)
    ensures |ring| == |before| + REPLICAS
    ensures AllVirtual(crc, instances, ring) && HoldsAll(crc, instances, ring, i)
    ensures HoldsNodes(crc, instances, ring, i, REPLICAS)
  {
    ring := before;
    for v := 0 to REPLICAS
      invariant |ring| == |before| + v
      invariant AllVirtual(crc, instances, ring) && HoldsAll(crc, instances, ring, i)
      invariant HoldsNodes(crc, instances, ring, i, v)
    {
      RingGrows(crc, instances, ring, i, v);
      ring := ring + [RingNode(VHash(crc, instances[i], v), i)];
    }
  }

  /** The ring before sorting holds the virtual nodes of all instances and nothing else. */
  method BuildRing(crc: string -> Hash, instances: seq<Instance>) returns (ring: seq<RingNode>)
    ensures |ring| == |instances| * 160
    ensures AllVirtual(crc, instances, ring) && HoldsAll(crc, instances, ring, |instances|)
  {
    ring := [];
    for i := 0 to |instances|
      invariant |ring| == i * REPLICAS
      invariant AllVirtual(crc, instances, ring) && HoldsAll(crc, instances, ring, i)
    {
      ring := AppendNodes(crc, instances, i, ring);
    }
  }

  lemma PointsOfRing(crc: string -> Hash, instances: seq<Instance>, ring: seq<RingNode>, g: Hash)
    returns (k: nat)
    requires HoldsAll(crc, instances, ring, |instances|)
    requires OnRing(crc, Elements(instances), g)
    ensures k < |ring| && ring[k].hash == g
  {
    var x :| x in Elements(instances) && At(crc, x, g);
    var i: nat :| i < |instances| && instances[i] == x;
    var v: nat :| v < REPLICAS && VHash(crc, x, v) == g;
    assert HoldsNodes(crc, instances, ring, i, REPLICAS);
    assert RingNode(g, i) in ring;
    k :| 0 <= k < |ring| && ring[k] == RingNode(g, i);
  }

  /** Sorting neither adds nor loses a virtual node. */
  lemma SortedRing(crc: string -> Hash, instances: seq<Instance>, ring: seq<RingNode>, sorted: seq<RingNode>)
    requires multiset(sorted) == multiset(ring) && AllVirtual(crc, instances, ring)
    requires HoldsAll(crc, instances, ring, |instances|)
    ensures |sorted| == |ring| && AllVirtual(crc, instances, sorted)
    ensures HoldsAll(crc, instances, sorted, |instances|)
  {
    assert |sorted| == |multiset(sorted)| && |ring| == |multiset(ring)|;
    forall n ensures n in sorted <==> n in ring {
      assert n in sorted <==> n in multiset(sorted);
    }
    assert forall i: nat :: i < |instances| && HoldsNodes(crc, instances, ring, i, REPLICAS) ==>
                              HoldsNodes(crc, instances, sorted, i, REPLICAS);
  }

  /** The lookup returns an owner of the next point, for every instance list and key. An empty key
      is replaced by a random number. */
  method Select(crc: string -> Hash, instances: seq<Instance>, key: string, random: nat) returns (i: nat)
    requires |instances| > 0
    ensures i < |instances|
    ensures Chosen(crc, Elements(instances), crc(if key == "" then Itoa(random) else key), instances[i])
  {
    var keyHash := crc(if key == "" then Itoa(random) else key);
    var ring := BuildRing(crc, instances);
    var sorted := SortRing(ring);
    SortedRing(crc, instances, ring, sorted);
    var idx := Search(sorted, keyHash);
    if idx >= |sorted| {
      idx := 0;
    }
    var n := sorted[idx];
    i := n.idx;
    assert IsVirtualNode(crc, instances, n);
    FirstIsNext(crc, instances, sorted, keyHash, idx);
  }

  /** The search result, wrapped to 0 past the end. */
  ghost predicate Found(ring: seq<RingNode>, key: Hash, idx: nat) {
    && idx < |ring|
    && if ring[idx].hash >= key then forall k :: 0 <= k < idx ==> ring[k].hash < key
       else idx == 0 && forall k :: 0 <= k < |ring| ==> ring[k].hash < key
  }

  lemma FoundIsFirst(ring: seq<RingNode>, key: Hash, idx: nat, k: nat)
    requires Ordered(ring) && Found(ring, key, idx) && k < |ring|
    ensures var h, g := ring[idx].hash, ring[k].hash;
            if h >= key then g >= h || g < key else h <= g < key
  {
  }

  lemma FirstIsNext(crc: string -> Hash, instances: seq<Instance>, ring: seq<RingNode>, key: Hash, idx: nat)
    requires Ordered(ring) && Found(ring, key, idx) && AllVirtual(crc, instances, ring)
    requires HoldsAll(crc, instances, ring, |instances|)
    ensures IsNext(crc, Elements(instances), key, ring[idx].hash)
  {
    var n := ring[idx];
    assert n in ring && IsVirtualNode(crc, instances, n);
    assert instances[n.idx] in Elements(instances);
    forall g: Hash | OnRing(crc, Elements(instances), g)
      ensures if n.hash >= key then g >= n.hash || g < key else n.hash <= g < key
    {
      var k := PointsOfRing(crc, instances, ring, g);
      FoundIsFirst(ring, key, idx, k);
    }
  }

  // ---------- which instance is chosen ----------

  /** No two instances share a point. Instances that differ only outside ip and port do. */
  ghost predicate Apart(crc: string -> Hash, s: set<Instance>) {
    forall x, y, h :: x in s && y in s && At(crc, x, h) && At(crc, y, h) ==> x == y
  }

  lemma NextIsUnique(crc: string -> Hash, s: set<Instance>, key: Hash, h: Hash, g: Hash)
    requires IsNext(crc, s, key, h) && IsNext(crc, s, key, g)
    ensures h == g
  {
  }

  /** The checksum tells the virtual nodes of these instances apart by their texts. */
  ghost predicate NoCollision(crc: string -> Hash, s: set<Instance>) {
    forall x, y, v: nat, w: nat ::
      x in s && y in s && v < REPLICAS && w < REPLICAS && VHash(crc, x, v) == VHash(crc, y, w)
      ==> NodeText(x, v) == NodeText(y, w)
  }

  /** Without collisions no two instances share a point exactly when no two have the same address. */
  lemma ApartByAddress(crc: string -> Hash, s: set<Instance>)
    requires NoCollision(crc, s)
    ensures Apart(crc, s) <==> forall x, y :: x in s && y in s && x.ip == y.ip && x.port == y.port ==> x == y
  {
    if forall x, y :: x in s && y in s && x.ip == y.ip && x.port == y.port ==> x == y {
      forall x, y, h | x in s && y in s && At(crc, x, h) && At(crc, y, h) ensures x == y {
        var v: nat :| v < REPLICAS && VHash(crc, x, v) == h;
        var w: nat :| w < REPLICAS && VHash(crc, y, w) == h;
        NodeTextTells(x, v, y, w);
      }
    } else {
      var x, y :| x in s && y in s && x.ip == y.ip && x.port == y.port && x != y;
      var h := VHash(crc, x, 0);
      assert VHash(crc, y, 0) == h;
      assert At(crc, x, h) && At(crc, y, h);
    }
  }

  ghost predicate Determined(crc: string -> Hash, s: set<Instance>) {
    forall key, x, y :: Chosen(crc, s, key, x) && Chosen(crc, s, key, y) ==> x == y
  }

  /** The choice depends only on the key and the set of instances, not on their order in the list
      or on the sort, exactly when no two instances share a point. */
  lemma ChoiceIsDetermined(crc: string -> Hash, s: set<Instance>)
    ensures Determined(crc, s) <==> Apart(crc, s)
  {
    if Apart(crc, s) {
      forall key, x, y | Chosen(crc, s, key, x) && Chosen(crc, s, key, y) ensures x == y {
        var h :| At(crc, x, h) && IsNext(crc, s, key, h);
        var g :| At(crc, y, g) && IsNext(crc, s, key, g);
        NextIsUnique(crc, s, key, h, g);
      }
    } else {
      var x, y, h :| x in s && y in s && At(crc, x, h) && At(crc, y, h) && x != y;
      SharedPoint(crc, s, x, y, h);
      assert !Determined(crc, s);
    }
  }

  /** For a key that hashes to a shared point either of its owners may be chosen. */
  lemma SharedPoint(crc: string -> Hash, s: set<Instance>, x: Instance, y: Instance, h: Hash)
    requires x in s && y in s && At(crc, x, h) && At(crc, y, h)
    ensures Chosen(crc, s, h, x) && Chosen(crc, s, h, y)
  {
    assert IsNext(crc, s, h, h);
  }

  // ---------- minimal disruption ----------

  ghost predicate MinimallyDisrupted(crc: string -> Hash, s: set<Instance>, x: Instance) {
    forall key, y, z :: Chosen(crc, s, key, y) && Chosen(crc, s - {x}, key, z) ==> (z != y <==> y == x)
  }

  lemma RemovalKeepsNext(crc: string -> Hash, s: set<Instance>, x: Instance, key: Hash, y: Instance)
    requires Chosen(crc, s, key, y) && y != x
    ensures Chosen(crc, s - {x}, key, y)
  {
    var h :| At(crc, y, h) && IsNext(crc, s, key, h);
    assert OnRing(crc, s - {x}, h);
    forall g: Hash | OnRing(crc, s - {x}, g) ensures OnRing(crc, s, g) {
      var w :| w in s - {x} && At(crc, w, g);
      assert w in s;
    }
    assert IsNext(crc, s - {x}, key, h);
  }

  /** Removing an instance moves exactly the keys that mapped to it, and adding it back moves exactly
      the keys that then map to it, if and only if no two of the others share a point. The points of
      the instance itself may be shared. */
  lemma DisruptionIsMinimal(crc: string -> Hash, s: set<Instance>, x: Instance)
    ensures MinimallyDisrupted(crc, s, x) <==> Apart(crc, s - {x})
  {
    if Apart(crc, s - {x}) {
      ChoiceIsDetermined(crc, s - {x});
      forall key, y, z | Chosen(crc, s, key, y) && Chosen(crc, s - {x}, key, z) ensures z != y <==> y == x {
        if y != x {
          RemovalKeepsNext(crc, s, x, key, y);
        }
      }
    } else {
      var y, z, h :| y in s - {x} && z in s - {x} && At(crc, y, h) && At(crc, z, h) && y != z;
      SharedPoint(crc, s, y, z, h);
      SharedPoint(crc, s - {x}, y, z, h);
      assert Chosen(crc, s, h, y) && Chosen(crc, s - {x}, h, z) && z != y && y != x;
    }
  }

  /** So no two instances sharing a point is enough for every removal. */
  lemma MinimalDisruption(crc: string -> Hash, s: set<Instance>, x: Instance)
    requires Apart(crc, s)
    ensures MinimallyDisrupted(crc, s, x)
  {
    DisruptionIsMinimal(crc, s, x);
  }

  /** And with three instances or more it is also needed for all removals together. */
  lemma DisruptionNeedsApart(crc: string -> Hash, s: set<Instance>)
    requires |s| >= 3
    ensures (forall x :: x in s ==> MinimallyDisrupted(crc, s, x)) <==> Apart(crc, s)
  {
    forall x ensures MinimallyDisrupted(crc, s, x) <==> Apart(crc, s - {x}) {
      DisruptionIsMinimal(crc, s, x);
    }
    if !Apart(crc, s) {
      var y, z, h :| y in s && z in s && At(crc, y, h) && At(crc, z, h) && y != z;
      assert |s - {y} - {z}| == |s| - 2;
      var x :| x in s - {y} - {z};
      assert y in s - {x} && z in s - {x};
      assert !Apart(crc, s - {x});
    }
  }
}
