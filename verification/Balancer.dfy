/** The client's round-robin and weighted choices. */
module Balancer {
  import opened Int64
  import opened Registry

  // ---------- round robin ----------

  /** Successive picks from counter `c` while the list has the given sizes. */
  function Picks(c: nat, sizes: seq<nat>): (picks: seq<nat>)
    requires Positive(sizes)
    ensures |picks| == |sizes| && forall t :: 0 <= t < |sizes| ==> picks[t] < sizes[t]
    decreases |sizes|
  {
    if sizes == [] then []
    else [c % sizes[0]] + Picks(c % sizes[0] + 1, sizes[1..])
  }

  ghost predicate Positive(sizes: seq<nat>) {
    forall i :: 0 <= i < |sizes| ==> sizes[i] > 0
  }

  class Client {
    var rrIndex: map<string, nat>

    constructor ()
      ensures rrIndex == map[]
    {
      rrIndex := map[];
    }

    function Counter(key: string): nat
      reads this
    {
      if key in rrIndex then rrIndex[key] else 0
    }

    /** The index into a list of `size` instances. The stored counter never exceeds the size, so it
        cannot overflow; counters of other services stay. */
    method RoundRobin(key: string, size: nat) returns (idx: nat)
      requires size > 0
      modifies this
      ensures idx == if key in old(rrIndex) then old(rrIndex)[key] % size else 0
      ensures forall later :: Positive(later) ==>
                                Picks(old(Counter(key)), [size] + later) == [idx] + Picks(Counter(key), later)
      ensures rrIndex == old(rrIndex)[key := idx + 1]
    {
      idx := Counter(key) % size;
      rrIndex := rrIndex[key := idx + 1];
      assert forall later: seq<nat> :: ([size] + later)[1..] == later;
    }
  }

  /** The list keeps size `n` on the calls from `from` on, `count` of them. */
  ghost predicate Steady(sizes: seq<nat>, from: nat, count: nat, n: nat) {
    from + count <= |sizes| && forall i :: from <= i < from + count ==> sizes[i] == n
  }

  /** On a steady stretch the picks go round: each is the previous one's successor. */
  lemma {:induction false} PicksGoRound(c: nat, sizes: seq<nat>, from: nat, count: nat, n: nat) returns (a: nat)
    requires Positive(sizes)
    requires Steady(sizes, from, count, n) && n > 0
    ensures forall t :: from <= t < from + count ==> Picks(c, sizes)[t] == Turn(a, t - from, n)
    decreases |sizes|
  {
    if from == 0 {
      a := c;
      SteadyFromStart(c, sizes, count, n);
    } else {
      a := PicksGoRound(c % sizes[0] + 1, sizes[1..], from - 1, count, n);
    }
  }

  lemma {:induction false} SteadyFromStart(c: nat, sizes: seq<nat>, count: nat, n: nat)
    requires Positive(sizes)
    requires Steady(sizes, 0, count, n) && n > 0
    ensures forall t :: 0 <= t < count ==> Picks(c, sizes)[t] == Turn(c, t, n)
    decreases |sizes|
  {
    if count > 0 {
      SteadyFromStart(c % sizes[0] + 1, sizes[1..], count - 1, n);
      var later := Picks(c % n + 1, sizes[1..]);
      assert Picks(c, sizes) == [c % n] + later;
      forall t | 0 <= t < count ensures Picks(c, sizes)[t] == Turn(c, t, n) {
        if t > 0 {
          assert later[t - 1] == Turn(c % n + 1, t - 1, n);
          SameTurn(c, t, n);
        }
      }
    }
  }

  lemma SameTurn(c: nat, k: nat, n: nat)
    requires n > 0 && k > 0
    ensures Turn(c % n + 1, k - 1, n) == Turn(c, k, n)
  {
    var q, r := c / n, c % n;
    var p, t := (r + k) / n, (r + k) % n;
    Distribute(q, -p, n);
    DivModUnique(q + p, t, c + k, n);
  }

  /** Over any `n` consecutive calls with a list of size `n` each position is picked exactly once,
      whatever the sizes were before. */
  lemma RoundRobinIsFair(c: nat, sizes: seq<nat>, from: nat, n: nat, p: nat) returns (k: nat)
    requires Positive(sizes)
    requires p < n && Steady(sizes, from, n, n)
    ensures from <= k < from + n && Picks(c, sizes)[k] == p
    ensures forall t :: from <= t < from + n && Picks(c, sizes)[t] == p ==> t == k
  {
    var a := PicksGoRound(c, sizes, from, n, n);
    var i := EachResidueOnce(a, n, p);
    k := from + i;
    forall t | from <= t < from + n && Picks(c, sizes)[t] == p ensures t == k {
      assert Turn(a, t - from, n) == p;
    }
  }

  // ---------- weighted choice ----------

  /** A draw `r` lands on the first instance whose cumulative weight reaches it. */
  ghost predicate Lands(list: seq<Instance>, r: real, i: int) {
    && 0 <= i < |list|
    && r <= Cumulative(list, i + 1)
    && forall j :: 1 <= j <= i ==> Cumulative(list, j) < r
  }

  /** `r` is the random fraction times the total weight, `uniform` the draw that replaces it when no
      weight is positive. The final fallback is for a draw above the total, which only rounding
      could produce. */
  method WeightedSelect(list: seq<Instance>, r: real, uniform: nat) returns (i: nat)
    requires uniform < |list|
    ensures i < |list|
    ensures TotalWeight(list) <= 0.0 ==> i == uniform
    ensures TotalWeight(list) > 0.0 ==>
              if exists j :: Lands(list, r, j) then Lands(list, r, i) else i == |list| - 1
    ensures TotalWeight(list) > 0.0 && r <= TotalWeight(list) ==> Lands(list, r, i)
  {
    var totalWeight := SumWeights(list);
    if totalWeight <= 0.0 {
      return uniform;
    }
    var cumulative := 0.0;
    for k := 0 to |list|
      invariant cumulative == Cumulative(list, k)
      invariant forall j :: 1 <= j <= k ==> Cumulative(list, j) < r
    {
      cumulative := cumulative + list[k].weight;
      if r <= cumulative {
        assert Lands(list, r, k);
        return k;
      }
    }
    i := |list| - 1;
  }

  ghost predicate NonNegative(list: seq<Instance>) {
    forall i :: 0 <= i < |list| ==> list[i].weight >= 0.0
  }

  lemma {:induction false} CumulativeGrows(list: seq<Instance>, i: nat, j: nat)
    requires NonNegative(list) && i <= j <= |list|
    ensures 0.0 <= Cumulative(list, i) <= Cumulative(list, j)
    decreases j
  {
    if i < j {
      CumulativeGrows(list, i, j - 1);
    } else if j > 0 {
      CumulativeGrows(list, j - 1, j - 1);
    }
  }

  /** A positive draw selects instance `i` exactly on an interval whose length is its weight. */
  lemma DrawInterval(list: seq<Instance>, r: real, i: nat)
    requires NonNegative(list) && r > 0.0 && i < |list|
    ensures Lands(list, r, i) <==> Cumulative(list, i) < r <= Cumulative(list, i + 1)
    ensures Cumulative(list, i + 1) - Cumulative(list, i) == list[i].weight
  {
    if Cumulative(list, i) < r {
      forall j | 1 <= j <= i ensures Cumulative(list, j) < r {
        CumulativeGrows(list, j, i);
      }
    }
  }

  /** The intervals partition the draws: every draw up to the total lands on exactly one instance. */
  lemma DrawsPartition(list: seq<Instance>, r: real) returns (i: nat)
    requires NonNegative(list) && 0.0 <= r <= TotalWeight(list) && list != []
    ensures Lands(list, r, i)
    ensures forall j :: Lands(list, r, j) ==> j == i
  {
    i := 0;
    while Cumulative(list, i + 1) < r
      decreases |list| - i
      invariant i < |list|
      invariant forall j :: 1 <= j <= i ==> Cumulative(list, j) < r
    {
      if i == |list| - 1 {
        assert false;
      }
      i := i + 1;
    }
  }

  /** An instance of weight zero is returned only by the draw 0, and only when it stands first. */
  lemma ZeroWeight(list: seq<Instance>, r: real, i: nat)
    requires NonNegative(list) && r >= 0.0 && i < |list| && list[i].weight == 0.0
    ensures Lands(list, r, i) <==> r == 0.0 && i == 0
  {
    assert Cumulative(list, 1) == Cumulative(list, 0) + list[0].weight;
    if r > 0.0 {
      DrawInterval(list, r, i);
    } else if i > 0 {
      CumulativeGrows(list, 0, 1);
    }
  }

  function SumFirst(ws: seq<nat>, n: nat): nat
    requires n <= |ws|
  {
    if n == 0 then 0 else SumFirst(ws, n - 1) + ws[n - 1]
  }

  ghost predicate Weighs(list: seq<Instance>, ws: seq<nat>) {
    |list| == |ws| && forall i :: 0 <= i < |ws| ==> list[i].weight == ws[i] as real
  }

  lemma {:induction false} IntegerSums(list: seq<Instance>, ws: seq<nat>, n: nat)
    requires Weighs(list, ws) && n <= |ws|
    ensures Cumulative(list, n) == SumFirst(ws, n) as real
  {
    if n > 0 {
      IntegerSums(list, ws, n - 1);
    }
  }

  lemma {:induction false} SumsGrow(ws: seq<nat>, i: nat, j: nat)
    requires i <= j <= |ws|
    ensures SumFirst(ws, i) <= SumFirst(ws, j)
  {
    if i < j {
      SumsGrow(ws, i, j - 1);
    }
  }

  /** The integers above `a` up to `b`. */
  ghost function Interval(a: int, b: int): set<int>
    decreases b - a
  {
    if a >= b then {} else Interval(a, b - 1) + {b}
  }

  lemma {:induction false} IntervalMembers(a: int, b: int)
    ensures forall r :: r in Interval(a, b) <==> a < r <= b
    ensures a <= b ==> |Interval(a, b)| == b - a
    decreases b - a
  {
    if a < b {
      IntervalMembers(a, b - 1);
    }
  }

  ghost predicate DrawLands(list: seq<Instance>, r: int, i: int) {
    Lands(list, r as real, i)
  }

  lemma DrawRange(list: seq<Instance>, ws: seq<nat>, i: nat, r: int)
    requires Weighs(list, ws) && i < |ws| && r > 0
    ensures DrawLands(list, r, i) <==> SumFirst(ws, i) < r <= SumFirst(ws, i + 1)
  {
    assert NonNegative(list);
    IntegerSums(list, ws, i);
    IntegerSums(list, ws, i + 1);
    DrawInterval(list, r as real, i);
  }

  /** The integer draws 1..`total` that select instance `i`. */
  ghost function DrawsFor(list: seq<Instance>, total: nat, i: int): set<int> {
    set r | r in Interval(0, total) && DrawLands(list, r, i)
  }

  lemma CountDraws(list: seq<Instance>, total: nat, i: int, a: nat, b: nat)
    requires a <= b <= total
    requires forall r :: 0 < r <= total ==> (DrawLands(list, r, i) <==> a < r <= b)
    ensures |DrawsFor(list, total, i)| == b - a
  {
    IntervalMembers(0, total);
    IntervalMembers(a, b);
    forall r ensures r in DrawsFor(list, total, i) <==> r in Interval(a, b) {
      assert r in DrawsFor(list, total, i) <==> 0 < r <= total && DrawLands(list, r, i);
    }
    assert DrawsFor(list, total, i) == Interval(a, b);
  }

  /** For integer weights of total W, exactly `ws[i]` of the draws 1..W select instance `i`. */
  lemma ChoiceIsProportional(list: seq<Instance>, ws: seq<nat>, i: nat)
    requires Weighs(list, ws) && i < |ws|
    ensures |DrawsFor(list, SumFirst(ws, |ws|), i)| == ws[i]
  {
    var a, b, total := SumFirst(ws, i), SumFirst(ws, i + 1), SumFirst(ws, |ws|);
    SumsGrow(ws, i + 1, |ws|);
    assert b == a + ws[i];
    forall r | 0 < r <= total ensures DrawLands(list, r, i) <==> a < r <= b {
      DrawRange(list, ws, i, r);
    }
    CountDraws(list, total, i, a, b);
  }
}
