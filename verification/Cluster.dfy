/** Cluster membership: the shared node table, the manager of one node, leadership and sharding. */
module Cluster {
  import opened Int64
  import opened Sequences
  import opened Text

  // ---------- the shared table ----------

  datatype NodeState = Up | Down

  datatype Row = Row(state: NodeState, lastBeat: int)

  datatype ClusterNode = ClusterNode(address: string, row: Row)

  type Table = map<string, Row>

  /** A peer is marked DOWN when its last beat is more than 15 s old (milliseconds here). */
  const TIMEOUT := 15_000

  predicate Stale(row: Row, now: int) {
    now - row.lastBeat > TIMEOUT && row.state.Up?
  }

  /** The table after node `self` refreshed at `now` and marked the stale peers among `reached`. */
  function MarkAmong(table: Table, reached: set<string>, self: string, now: int): Table {
    map a | a in table ::
      if a in reached && a != self && Stale(table[a], now) then table[a].(state := Down) else table[a]
  }

  /** A refresh whose marks all succeed. */
  function MarkStale(table: Table, self: string, now: int): Table {
    MarkAmong(table, table.Keys, self, now)
  }

  lemma MarkOneMore(table: Table, reached: set<string>, self: string, now: int, a: string)
    requires a in table && a !in reached
    ensures MarkAmong(table, reached + {a}, self, now) ==
            if a != self && Stale(table[a], now)
            then MarkAmong(table, reached, self, now)[a := table[a].(state := Down)]
            else MarkAmong(table, reached, self, now)
  {
  }

  /** The table after the given addresses were registered as UP. */
  function Registered(table: Table, addresses: set<string>, now: int): Table {
    table + map a | a in addresses :: Row(Up, now)
  }

  lemma RegisteredOneMore(table: Table, addresses: set<string>, a: string, now: int)
    ensures Registered(table, addresses, now)[a := Row(Up, now)] == Registered(table, addresses + {a}, now)
  {
  }

  /** `nodes` lists the rows of `table`, each address once, in some order. */
  ghost predicate Lists(nodes: seq<ClusterNode>, table: Table) {
    && (forall i, j :: 0 <= i < j < |nodes| ==> nodes[i].address != nodes[j].address)
    && (forall n :: n in nodes ==> n.address in table && n.row == table[n.address])
    && (forall a :: a in table ==> ClusterNode(a, table[a]) in nodes)
  }

  /** The addresses a list of rows shows as UP. */
  ghost function UpSet(nodes: seq<ClusterNode>): set<string> {
    set n | n in nodes && n.row.state.Up? :: n.address
  }

  ghost function UpKeys(table: Table): set<string> {
    set a | a in table && table[a].state.Up?
  }

  lemma ListedUp(nodes: seq<ClusterNode>, table: Table)
    requires Lists(nodes, table)
    ensures UpSet(nodes) == UpKeys(table)
  {
    forall a | a in UpKeys(table) ensures a in UpSet(nodes) {
      assert ClusterNode(a, table[a]) in nodes;
    }
  }

  class ClusterNodeStore {
    var rows: Table

    constructor ()
      ensures rows == map[]
    {
      rows := map[];
    }

    /** Creates or updates one row, unless the database fails. */
    method Upsert(address: string, row: Row, dbOk: bool) returns (ok: bool)
      modifies this
      ensures ok == dbOk
      ensures rows == if ok then old(rows)[address := row] else old(rows)
    {
      if dbOk {
        rows := rows[address := row];
      }
      ok := dbOk;
    }

    /** All rows in the order the database happens to return them. */
    method List(dbOk: bool) returns (ok: bool, nodes: seq<ClusterNode>)
      ensures ok == dbOk
      ensures if ok then Lists(nodes, rows) else nodes == []
    {
      ok, nodes := dbOk, [];
      if !dbOk {
        return;
      }
      var left := rows.Keys;
      while left != {}
        invariant left <= rows.Keys
        invariant Lists(nodes, rows - left)
        decreases left
      {
        var a :| a in left;
        ghost var sofar, done := nodes, rows - left;
        nodes := nodes + [ClusterNode(a, rows[a])];
        left := left - {a};
        forall b | b in rows - left ensures ClusterNode(b, (rows - left)[b]) in nodes {
          if b != a {
            assert ClusterNode(b, done[b]) in sofar;
          }
        }
      }
      assert rows - left == rows;
    }

    /** Unconditional, whatever the row says by now; an absent address changes nothing. */
    method MarkDown(address: string, dbOk: bool) returns (ok: bool)
      modifies this
      ensures ok == dbOk
      ensures rows == if ok && address in old(rows)
                      then old(rows)[address := old(rows)[address].(state := Down)] else old(rows)
    {
      if dbOk && address in rows {
        rows := rows[address := rows[address].(state := Down)];
      }
      ok := dbOk;
    }
  }

  // ---------- leadership ----------

  ghost predicate IsLeast(a: string, s: set<string>) {
    a in s && forall b :: b in s ==> AtMost(a, b)
  }

  /** What a node with UP addresses `up` in its cached rows answers to `IsLeader`. */
  ghost predicate Leads(self: string, up: set<string>) {
    up == {} || IsLeast(self, up)
  }

  lemma {:induction false} LeastExists(s: set<string>) returns (m: string)
    requires s != {}
    ensures IsLeast(m, s)
    decreases |s|
  {
    m :| m in s;
    var rest := s - {m};
    AtMostTotal(m, m);
    if rest != {} {
      var r := LeastExists(rest);
      AtMostTotal(m, r);
      forall b | b in rest && AtMost(m, r) ensures AtMost(m, b) {
        AtMostTransitive(m, r, b);
      }
      m := if AtMost(m, r) then m else r;
    }
  }

  /** Among nodes that see the same non-empty UP set, exactly the least of them leads. */
  lemma OneLeader(up: set<string>)
    requires up != {}
    ensures exists a :: a in up && Leads(a, up)
    ensures forall a, b :: Leads(a, up) && Leads(b, up) ==> a == b && IsLeast(a, up)
  {
    var m := LeastExists(up);
    assert Leads(m, up);
    forall a, b | Leads(a, up) && Leads(b, up) ensures a == b && IsLeast(a, up) {
      AtMostAntisymmetric(a, b);
    }
  }

  /** Who leads, letter by letter: with no row UP every node; else the UP node whose address is a
      prefix of every other, or smaller where the two first differ. */
  lemma LeaderIsFirst(self: string, up: set<string>)
    ensures Leads(self, up) <==>
            || up == {}
            || (&& self in up
                && forall b :: b in up ==>
                                 || (|self| <= |b| && b[..|self|] == self)
                                 || exists i :: 0 <= i < |self| && i < |b| && self[..i] == b[..i] && self[i] < b[i])
  {
    forall b ensures AtMost(self, b) <==>
                     || (|self| <= |b| && b[..|self|] == self)
                     || exists i :: 0 <= i < |self| && i < |b| && self[..i] == b[..i] && self[i] < b[i] {
      AtMostIsLexicographic(self, b);
    }
  }

  // ---------- sharding ----------

  function Abs(x: int): nat {
    if x < 0 then -x else x
  }

  /** The key read as a numeral in base 31, unbounded. */
  function Poly31(key: string): nat {
    if key == "" then 0 else Poly31(key[..|key| - 1]) * 31 + key[|key| - 1] as int
  }

  lemma WrapOnce(a: int, c: int)
    ensures Wrap64(Wrap64(a) * 31 + c) == Wrap64(a * 31 + c)
  {
    var d := (a - Wrap64(a)) / TWO64;
    WrapShift(a);
    DivModUnique((a * 31 + c) / TWO64 - d * 31, (a * 31 + c) % TWO64, Wrap64(a) * 31 + c, TWO64);
  }

  /** The rolling hash wraps at each step; it equals the unbounded numeral wrapped once. */
  method ShardHash(key: string) returns (hash: int)
    ensures hash == Wrap64(Poly31(key))
  {
    hash := 0;
    for i := 0 to |key|
      invariant hash == Wrap64(Poly31(key[..i]))
    {
      HashStep(key, i);
      WrapOnce(Poly31(key[..i]), key[i] as int);
      hash := Wrap64(hash * 31 + key[i] as int);
    }
    assert key[..|key|] == key;
  }

  /** Negating the least 64-bit integer leaves it negative, so the index can be negative too. */
  predicate OutOfRange(key: string, n: nat)
    requires n > 0
  {
    Wrap64(Poly31(key)) == -TWO63 && TWO63 % n != 0
  }

  /** A key whose hash is the least 64-bit integer: with three UP nodes no index is in range. */
  lemma UnshardableKey()
    ensures OutOfRange("atixvkzwitbdzy", 3)
  {
    var key := "atixvkzwitbdzy";
    assert key[..14] == key;
    HashStep(key, 0);
    assert Poly31(key[..1]) == 97;
    HashStep(key, 1);
    assert Poly31(key[..2]) == 3123;
    HashStep(key, 2);
    assert Poly31(key[..3]) == 96918;
    HashStep(key, 3);
    assert Poly31(key[..4]) == 3004578;
    HashStep(key, 4);
    assert Poly31(key[..5]) == 93142036;
    HashStep(key, 5);
    assert Poly31(key[..6]) == 2887403223;
    HashStep(key, 6);
    assert Poly31(key[..7]) == 89509500035;
    HashStep(key, 7);
    assert Poly31(key[..8]) == 2774794501204;
    HashStep(key, 8);
    assert Poly31(key[..9]) == 86018629537429;
    HashStep(key, 9);
    assert Poly31(key[..10]) == 2666577515660415;
    HashStep(key, 10);
    assert Poly31(key[..11]) == 82663902985472963;
    HashStep(key, 11);
    assert Poly31(key[..12]) == 2562580992549661953;
    HashStep(key, 12);
    assert Poly31(key[..13]) == 79440010769039520665;
    HashStep(key, 13);
    assert Poly31(key[..14]) == TWO63 + 133 * TWO64;
    DivModUnique(133, TWO63, 133 * TWO64 + TWO63, TWO64);
  }

  lemma HashStep(key: string, i: nat)
    requires i < |key|
    ensures Poly31(key[..i + 1]) == Poly31(key[..i]) * 31 + key[i] as int
  {
    assert key[..i + 1][..i] == key[..i];
  }

  function ShardIndex(key: string, n: nat): (i: nat)
    requires n > 0
    ensures i < n
  {
    Abs(Wrap64(Poly31(key))) % n
  }

  /** The index expression of the source is in range exactly when the key is not `OutOfRange`. */
  lemma IndexInRange(key: string, n: nat)
    requires n > 0
    ensures var h := Wrap64(Poly31(key));
            var idx := Rem(if h < 0 then Wrap64(-h) else h, n);
            (0 <= idx < n <==> !OutOfRange(key, n)) &&
            (0 <= idx < n ==> idx == ShardIndex(key, n))
  {
    var h := Wrap64(Poly31(key));
    if h == -TWO63 {
      assert Wrap64(TWO63) == -TWO63;
    }
  }

  /** The number of members of `s` before `a`. */
  ghost function Rank(a: string, s: set<string>): nat {
    |set b | b in s && b != a && AtMost(b, a)|
  }

  /** The UP node that checks an instance is the one whose rank is the shard index. */
  ghost predicate Owns(self: string, up: set<string>, key: string)
    requires up != {}
  {
    self in up && !OutOfRange(key, |up|) && Rank(self, up) == ShardIndex(key, |up|)
  }

  /** In an ordered list without repetition the position of an element is its rank. */
  lemma RankIsPosition(u: seq<string>, k: nat)
    requires Sorted(u) && Distinct(u) && k < |u|
    ensures Rank(u[k], Elements(u)) == k && |Elements(u)| == |u|
  {
    var below := set b | b in Elements(u) && b != u[k] && AtMost(b, u[k]);
    forall b | b in below ensures b in u[..k] {
      var j :| 0 <= j < |u| && u[j] == b;
      if k < j {
        AtMostAntisymmetric(u[j], u[k]);
      }
    }
    assert below == Elements(u[..k]);
    CountDistinct(u[..k]);
    CountDistinct(u);
  }

  lemma {:induction false} InOrder(s: set<string>) returns (u: seq<string>)
    ensures Sorted(u) && Distinct(u) && Elements(u) == s
    decreases |s|
  {
    u := [];
    if s != {} {
      var m := LeastExists(s);
      var v := InOrder(s - {m});
      u := [m] + v;
      PutLeastFirst(m, v);
    }
  }

  lemma PutLeastFirst(m: string, v: seq<string>)
    requires Sorted(v) && Distinct(v) && IsLeast(m, {m} + Elements(v)) && m !in Elements(v)
    ensures Sorted([m] + v) && Distinct([m] + v) && Elements([m] + v) == {m} + Elements(v)
  {
    assert forall k :: 0 <= k < |v| ==> v[k] in Elements(v);
  }

  lemma RankInjective(a: string, b: string, s: set<string>)
    requires a in s && b in s && Rank(a, s) == Rank(b, s)
    ensures a == b
  {
    var u := InOrder(s);
    var i :| 0 <= i < |u| && u[i] == a;
    var j :| 0 <= j < |u| && u[j] == b;
    RankIsPosition(u, i);
    RankIsPosition(u, j);
  }

  /** Every key has exactly one owner among the UP nodes, unless its index is out of range:
      then every node fails on it. */
  lemma OneOwner(up: set<string>, key: string)
    requires up != {}
    ensures forall a, b :: Owns(a, up, key) && Owns(b, up, key) ==> a == b
    ensures (exists a :: Owns(a, up, key)) <==> !OutOfRange(key, |up|)
  {
    forall a, b | Owns(a, up, key) && Owns(b, up, key) ensures a == b {
      RankInjective(a, b, up);
    }
    if !OutOfRange(key, |up|) {
      var u := InOrder(up);
      CountDistinct(u);
      var k := ShardIndex(key, |up|);
      RankIsPosition(u, k);
      assert Owns(u[k], up, key);
    }
  }

  /** However the UP addresses are listed in order, the owner is the one at the shard index. */
  lemma OwnerStandsAtIndex(self: string, u: seq<string>, key: string)
    requires Sorted(u) && Distinct(u) && u != []
    ensures |Elements(u)| == |u| && Elements(u) != {}
    ensures Owns(self, Elements(u), key) <==> !OutOfRange(key, |u|) && u[ShardIndex(key, |u|)] == self
  {
    var k := ShardIndex(key, |u|);
    RankIsPosition(u, k);
    assert u[k] in Elements(u);
    if Owns(self, Elements(u), key) {
      RankInjective(self, u[k], Elements(u));
    }
  }

  /** The answer of `ShouldCheckInstance`; `Panic` is the runtime's index-out-of-range. */
  datatype Answer = Yes | No | Panic

  // ---------- the manager of one node ----------

  /** The addresses a start registers: the own one is the database's call 0, member `i` call `i + 1`. */
  ghost function Written(self: string, members: seq<string>, dbOk: nat -> bool): set<string> {
    (if dbOk(0) then {self} else {}) + (set i: nat | i < |members| && members[i] != self && dbOk(i + 1) :: members[i])
  }

  lemma WrittenSelf(table: Table, self: string, dbOk: nat -> bool, now: int)
    ensures Registered(table, Written(self, [], dbOk), now) == if dbOk(0) then table[self := Row(Up, now)] else table
  {
    assert Written(self, [], dbOk) == if dbOk(0) then {self} else {};
  }

  lemma WrittenOneMore(self: string, members: seq<string>, i: nat, dbOk: nat -> bool)
    requires i < |members|
    ensures Written(self, members[..i + 1], dbOk) ==
            Written(self, members[..i], dbOk) + (if members[i] != self && dbOk(i + 1) then {members[i]} else {})
  {
    assert members[..i + 1] == members[..i] + [members[i]];
  }

  /** The rows whose marks would succeed. */
  ghost function Reached(table: Table, markOk: string -> bool): set<string> {
    set a | a in table && markOk(a)
  }

  /** When every write succeeds, a start registers the node and all members, and a refresh marks
      every stale peer: the steps of the protocol. */
  lemma WithoutFaults(table: Table, self: string, members: seq<string>, now: int)
    ensures Written(self, members, _ => true) == {self} + Elements(members)
    ensures MarkAmong(table, Reached(table, _ => true), self, now) == MarkStale(table, self, now)
  {
    forall a | a in members && a != self ensures a in Written(self, members, _ => true) {
      var i: nat :| i < |members| && members[i] == a;
    }
    assert Reached(table, _ => true) == table.Keys;
  }

  /** What a start writes, row by row. */
  lemma StartRegisters(table: Table, self: string, members: seq<string>, dbOk: nat -> bool, now: int, a: string)
    ensures var after := Registered(table, Written(self, members, dbOk), now);
            if (a == self && dbOk(0)) || (a != self && exists i: nat :: i < |members| && members[i] == a && dbOk(i + 1))
            then a in after && after[a] == Row(Up, now)
            else (a in after <==> a in table) && (a in table ==> after[a] == table[a])
  {
  }

  /** What a refresh writes, row by row: it only turns UP into DOWN, and only for peers whose last beat
      is more than 15 s old. */
  lemma RefreshMarks(table: Table, markOk: string -> bool, self: string, now: int, a: string)
    ensures var after := MarkAmong(table, Reached(table, markOk), self, now);
            && (a in after <==> a in table)
            && (a in table ==>
                  && after[a].lastBeat == table[a].lastBeat
                  && (after[a].state.Down? <==>
                      table[a].state.Down? || (a != self && markOk(a) && now - table[a].lastBeat > 15_000)))
  {
  }

  class Manager {
    const selfAddr: string
    const members: seq<string>
    const store: ClusterNodeStore
    var nodes: seq<ClusterNode>

    constructor (selfAddr: string, members: seq<string>, store: ClusterNodeStore)
      ensures this.selfAddr == selfAddr && this.members == members && this.store == store && nodes == []
    {
      this.selfAddr, this.members, this.store, nodes := selfAddr, members, store, [];
    }

    /** The cached rows name each address once, as the unique index of the table does. */
    ghost predicate Valid()
      reads this
    {
      forall i, j :: 0 <= i < j < |nodes| ==> nodes[i].address != nodes[j].address
    }

    /** Registers this node and every configured member as UP, as far as the database takes it, and
        touches no other row. `dbOk` tells which of the upserts succeed: a failed one is only logged,
        or ignored. */
    method Start(now: int, dbOk: nat -> bool)
      modifies store
      ensures store.rows == Registered(old(store.rows), Written(selfAddr, members, dbOk), now)
      ensures dbOk(0) ==> selfAddr in store.rows && store.rows[selfAddr] == Row(Up, now)
      ensures forall i: nat :: i < |members| && members[i] != selfAddr && dbOk(i + 1) ==>
                                 members[i] in store.rows && store.rows[members[i]] == Row(Up, now)
    {
      ghost var before, added := store.rows, Written(selfAddr, [], dbOk);
      var ok := store.Upsert(selfAddr, Row(Up, now), dbOk(0));
      WrittenSelf(before, selfAddr, dbOk, now);
      for i := 0 to |members|
        invariant added == Written(selfAddr, members[..i], dbOk)
        invariant store.rows == Registered(before, added, now)
      {
        WrittenOneMore(selfAddr, members, i, dbOk);
        RegisteredOneMore(before, added, members[i], now);
        if members[i] != selfAddr {
          ok := store.Upsert(members[i], Row(Up, now), dbOk(i + 1));
          if ok {
            added := added + {members[i]};
          }
        }
      }
      assert members[..|members|] == members;
    }

    method UpdateSelfHeartbeat(now: int, dbOk: bool)
      modifies store
      ensures store.rows == if dbOk then old(store.rows)[selfAddr := Row(Up, now)] else old(store.rows)
    {
      var ok := store.Upsert(selfAddr, Row(Up, now), dbOk);
    }

    /** Marks stale peers in the table, but for those whose update fails, which is ignored. The cache
        takes the rows as they were listed: the source changes a copy, so a peer marked by this very
        refresh is still UP in the cache. */
    method RefreshNodes(now: int, listOk: bool, markOk: string -> bool)
      requires Valid()
      modifies this, store
      ensures Valid()
      ensures !listOk ==> store.rows == old(store.rows) && nodes == old(nodes)
      ensures listOk ==> Lists(nodes, old(store.rows))
      ensures listOk ==>
                store.rows == MarkAmong(old(store.rows), Reached(old(store.rows), markOk), selfAddr, now)
    {
      ghost var before := store.rows;
      var ok, listed := store.List(listOk);
      if !ok {
        return;
      }
      ghost var reached := {};
      for i := 0 to |listed|
        invariant forall j :: 0 <= j < i ==> (listed[j].address in reached <==> markOk(listed[j].address))
        invariant forall j :: i <= j < |listed| ==> listed[j].address !in reached
        invariant store.rows == MarkAmong(before, reached, selfAddr, now)
      {
        var node := listed[i];
        assert node in listed;
        MarkOneMore(before, reached, selfAddr, now, node.address);
        if node.address != selfAddr {
          if now - node.row.lastBeat > TIMEOUT && node.row.state.Up? {
            ok := store.MarkDown(node.address, markOk(node.address));
          }
        }
        if markOk(node.address) {
          reached := reached + {node.address};
        }
      }
      nodes := listed;
      AllReached(before, listed, reached, selfAddr, now, markOk);
    }

    /** The addresses cached as UP, as both queries collect them. */
    method CollectUp() returns (up: seq<string>)
      requires Valid()
      ensures Distinct(up) && Elements(up) == UpSet(nodes)
    {
      up := [];
      for i := 0 to |nodes|
        invariant Distinct(up) && Elements(up) == UpSet(nodes[..i])
      {
        var n := nodes[i];
        assert nodes[..i + 1] == nodes[..i] + [n];
        assert n.address !in UpSet(nodes[..i]);
        assert n.address !in up by { assert n.address !in Elements(up); }
        if n.row.state.Up? {
          assert Elements(up + [n.address]) == Elements(up) + {n.address};
          up := up + [n.address];
        }
        assert UpSet(nodes[..i + 1]) == UpSet(nodes[..i]) + (if n.row.state.Up? then {n.address} else {});
      }
      assert nodes[..|nodes|] == nodes;
    }

    method IsLeader() returns (leader: bool)
      requires Valid()
      ensures leader <==> Leads(selfAddr, UpSet(nodes))
    {
      if |nodes| == 0 {
        return true;
      }
      var addrs := CollectUp();
      if |addrs| == 0 {
        return true;
      }
      assert addrs[0] in UpSet(nodes) by { assert addrs[0] in Elements(addrs); }
      var sorted := SortStrings(addrs);
      SameElements(addrs, sorted);
      leader := sorted[0] == selfAddr;
      assert IsLeast(sorted[0], UpSet(nodes)) by {
        forall b | b in UpSet(nodes) ensures AtMost(sorted[0], b) {
          assert b in Elements(sorted);
          AtMostTotal(b, b);
        }
        assert sorted[0] in Elements(sorted);
      }
      OneLeader(UpSet(nodes));
    }

    method ShouldCheckInstance(key: string) returns (answer: Answer)
      requires Valid()
      ensures UpSet(nodes) == {} ==> answer == Yes
      ensures UpSet(nodes) != {} ==>
                && (answer == Yes <==> Owns(selfAddr, UpSet(nodes), key))
                && (answer == Panic <==> OutOfRange(key, |UpSet(nodes)|))
    {
      var upNodes := CollectUp();
      if |upNodes| == 0 {
        return Yes;
      }
      assert upNodes[0] in UpSet(nodes) by { assert upNodes[0] in Elements(upNodes); }
      var sorted := SortStrings(upNodes);
      SameElements(upNodes, sorted);
      CountDistinct(upNodes);
      var hash := ShardHash(key);
      if hash < 0 {
        hash := Wrap64(-hash);
      }
      var idx := Rem(hash, |sorted|);
      IndexInRange(key, |sorted|);
      if !(0 <= idx < |sorted|) {
        return Panic;
      }
      answer := if sorted[idx] == selfAddr then Yes else No;
      RankIsPosition(sorted, idx);
      assert sorted[idx] in Elements(sorted);
      if Owns(selfAddr, UpSet(nodes), key) {
        RankInjective(selfAddr, sorted[idx], UpSet(nodes));
      }
    }
  }

  lemma AllReached(table: Table, nodes: seq<ClusterNode>, reached: set<string>, self: string, now: int,
                   markOk: string -> bool)
    requires Lists(nodes, table)
    requires forall j :: 0 <= j < |nodes| ==> (nodes[j].address in reached <==> markOk(nodes[j].address))
    ensures MarkAmong(table, reached, self, now) == MarkAmong(table, Reached(table, markOk), self, now)
  {
    forall a | a in table ensures a in reached <==> markOk(a) {
      assert ClusterNode(a, table[a]) in nodes;
    }
  }
}
