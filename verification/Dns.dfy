/** The order of a DNS answer: an exchange sort by weight, rotated by a counter per domain. */
module Dns {
  import opened Int64
  import opened Registry
  import opened Sequences

  // ---------- the exchange sort ----------

  function Exchanged(s: seq<Instance>, i: nat, j: nat): (t: seq<Instance>)
    requires i < j < |s|
    ensures |t| == |s|
  {
    if s[j].weight > s[i].weight then s[i := s[j]][j := s[i]] else s
  }

  /** The inner loop from `j` on. */
  function Pass(s: seq<Instance>, i: nat, j: nat): (t: seq<Instance>)
    requires i < j <= |s|
    ensures |t| == |s|
    decreases |s| - j
  {
    if j == |s| then s else Pass(Exchanged(s, i, j), i, j + 1)
  }

  /** The outer loop from `i` on. */
  function ExchangeSort(s: seq<Instance>, i: nat): (t: seq<Instance>)
    requires i <= |s|
    ensures |t| == |s|
    decreases |s| - i
  {
    if i == |s| then s else ExchangeSort(Pass(s, i, i + 1), i + 1)
  }

  /** The first `i` elements stand in descending order, before everything lighter. */
  ghost predicate Front(s: seq<Instance>, i: nat) {
    forall a, b :: 0 <= a < i && a < b < |s| ==> s[a].weight >= s[b].weight
  }

  lemma ExchangeKeepsFront(s: seq<Instance>, i: nat, j: nat)
    requires i < j < |s| && Front(s, i)
    requires forall b :: i < b < j ==> s[i].weight >= s[b].weight
    ensures var t := Exchanged(s, i, j);
            Front(t, i) && multiset(t) == multiset(s) && forall b :: i < b <= j ==> t[i].weight >= t[b].weight
  {
    var t := Exchanged(s, i, j);
    forall a, b | 0 <= a < i && a < b < |t| ensures t[a].weight >= t[b].weight {
      var c := if b == i then j else if b == j then i else b;
      assert s[a].weight >= s[b].weight && s[a].weight >= s[c].weight;
    }
  }

  lemma FrontGrows(s: seq<Instance>, i: nat)
    requires i < |s| && Front(s, i) && forall b :: i < b < |s| ==> s[i].weight >= s[b].weight
    ensures Front(s, i + 1)
  {
  }

  lemma {:induction false} PassSelectsHeaviest(s: seq<Instance>, i: nat, j: nat)
    requires i < j <= |s| && Front(s, i)
    requires forall b :: i < b < j ==> s[i].weight >= s[b].weight
    ensures Front(Pass(s, i, j), i + 1) && multiset(Pass(s, i, j)) == multiset(s)
    decreases |s| - j
  {
    if j < |s| {
      ExchangeKeepsFront(s, i, j);
      PassSelectsHeaviest(Exchanged(s, i, j), i, j + 1);
    } else {
      FrontGrows(s, i);
    }
  }

  lemma {:induction false} SortDescends(s: seq<Instance>, i: nat)
    requires i <= |s| && Front(s, i)
    ensures Front(ExchangeSort(s, i), |s|) && multiset(ExchangeSort(s, i)) == multiset(s)
    decreases |s| - i
  {
    if i < |s| {
      var t := Pass(s, i, i + 1);
      PassSelectsHeaviest(s, i, i + 1);
      SortDescends(t, i + 1);
      assert ExchangeSort(s, i) == ExchangeSort(t, i + 1);
    }
  }

  /** Only a strictly heavier element overtakes: what stands in descending order stays as it is. */
  lemma {:induction false} PassKeepsOrder(s: seq<Instance>, i: nat, j: nat)
    requires i < j <= |s| && Front(s, |s|)
    ensures Pass(s, i, j) == s
    decreases |s| - j
  {
    if j < |s| {
      PassKeepsOrder(s, i, j + 1);
    }
  }

  lemma {:induction false} SortKeepsOrder(s: seq<Instance>, i: nat)
    requires i <= |s| && Front(s, |s|)
    ensures ExchangeSort(s, i) == s
    decreases |s| - i
  {
    if i < |s| {
      PassKeepsOrder(s, i, i + 1);
      SortKeepsOrder(s, i + 1);
    }
  }

  // ---------- the answer ----------

  /** Which position of the sorted order comes first when the counter stands at `c`. A negative
      counter rotates nothing. */
  function FirstPosition(c: int, n: nat): (k: nat)
    requires n > 0
    ensures k < n
  {
    if Rem(c, n) > 0 then Rem(c, n) else 0
  }

  function Rotated<T>(s: seq<T>, k: nat): seq<T>
    requires k <= |s|
  {
    s[k..] + s[..k]
  }

  predicate Rotates(instances: seq<Instance>) {
    |instances| >= 2 && TotalWeight(instances) > 0.0
  }

  /** The answer for a counter value: the list itself, or its sorted order rotated. */
  function Answer(instances: seq<Instance>, c: int): seq<Instance> {
    if Rotates(instances)
    then Rotated(ExchangeSort(instances, 0), FirstPosition(c, |instances|))
    else instances
  }

  /** The counter that the next answer finds: only a list that rotates advances it. */
  function NextCounter(instances: seq<Instance>, c: int): int {
    if Rotates(instances) then Wrap64(c + 1) else c
  }

  class Server {
    var rrIndex: map<string, int>

    constructor ()
      ensures rrIndex == map[]
    {
      rrIndex := map[];
    }

    function Counter(domain: string): int
      reads this
    {
      if domain in rrIndex then rrIndex[domain] else 0
    }

    method WeightedSelect(instances: seq<Instance>, domain: string) returns (result: seq<Instance>)
      modifies this
      ensures |instances| < 2 || TotalWeight(instances) <= 0.0 ==> result == instances && rrIndex == old(rrIndex)
      ensures |instances| >= 2 && TotalWeight(instances) > 0.0 ==>
                var c := if domain in old(rrIndex) then old(rrIndex)[domain] else 0;
                && rrIndex == old(rrIndex)[domain := Wrap64(c + 1)]
                && (c == 0 ==> result == ExchangeSort(instances, 0))
      ensures result == Answer(instances, old(Counter(domain)))
      ensures Counter(domain) == NextCounter(instances, old(Counter(domain)))
      ensures rrIndex == if Rotates(instances) then old(rrIndex)[domain := Counter(domain)] else old(rrIndex)
    {
      if |instances| <= 1 {
        return instances;
      }
      var totalWeight := SumWeights(instances);
      if totalWeight <= 0.0 {
        return instances;
      }
      var idx := Counter(domain);
      rrIndex := rrIndex[domain := Wrap64(idx + 1)];
      var list := new Instance[|instances|](i requires 0 <= i < |instances| => instances[i]);
      assert list[..] == instances;
      SortInPlace(list);
      result := list[..];
      var rotate := Rem(idx, |result|);
      if rotate > 0 {
        result := result[rotate..] + result[..rotate];
      }
      assert Rotated(list[..], 0) == list[..];
    }
  }

  method SortInPlace(list: array<Instance>)
    modifies list
    ensures list[..] == ExchangeSort(old(list[..]), 0)
  {
    for i := 0 to list.Length
      invariant ExchangeSort(list[..], i) == ExchangeSort(old(list[..]), 0)
    {
      ghost var before := list[..];
      for j := i + 1 to list.Length
        invariant Pass(list[..], i, j) == Pass(before, i, i + 1)
      {
        ghost var now := list[..];
        if list[j].weight > list[i].weight {
          list[i], list[j] := list[j], list[i];
        }
        assert list[..] == Exchanged(now, i, j);
      }
    }
  }

  /** The answer is always a rearrangement of the instances; when it rotates, it is a rotation of
      an order by descending weight. */
  lemma AnswerIsRotatedOrder(instances: seq<Instance>, c: int)
    ensures multiset(Answer(instances, c)) == multiset(instances)
    ensures Rotates(instances) ==>
              var order := ExchangeSort(instances, 0);
              var k := FirstPosition(c, |instances|);
              && Front(order, |order|)
              && Answer(instances, c) == Rotated(order, k)
              && Answer(instances, c)[0] == order[k]
  {
    var order := ExchangeSort(instances, 0);
    SortDescends(instances, 0);
    if Rotates(instances) {
      var k := FirstPosition(c, |instances|);
      assert order == order[..k] + order[k..];
      assert multiset(order) == multiset(order[..k]) + multiset(order[k..]);
    }
  }

  /** Each answer is the one before it, with the first instance moved to the end; the first answer is
      the descending order itself. */
  lemma AnswersGoRound(l: seq<Instance>, c: int)
    requires |l| >= 2 && TotalWeight(l) > 0.0 && 0 <= c
    ensures Answer(l, 0) == ExchangeSort(l, 0)
    ensures |Answer(l, c)| == |l| && Answer(l, c + 1) == Answer(l, c)[1..] + [Answer(l, c)[0]]
  {
    var order, n := ExchangeSort(l, 0), |l|;
    assert Rotated(order, 0) == order;
    TurnAt(c, 1, n);
    assert Turn(c, 1, n) == FirstPosition(c + 1, n) && FirstPosition(c, n) == c % n;
    RotateOnce(order, c % n);
  }

  lemma RotateOnce<T>(s: seq<T>, k: nat)
    requires k < |s|
    ensures Rotated(s, if k + 1 < |s| then k + 1 else 0) == Rotated(s, k)[1..] + [Rotated(s, k)[0]]
  {
    assert s[k..] == [s[k]] + s[k + 1..];
    assert s[..k + 1] == s[..k] + [s[k]];
  }

  // ---------- fairness ----------

  /** The counter after `k` more calls, and the position that then comes first. */
  function CounterAfter(c: int, k: nat): int
  {
    if k == 0 then c else Wrap64(CounterAfter(c, k - 1) + 1)
  }

  lemma {:induction false} CounterWraps(c: int, k: nat)
    requires -TWO63 <= c < TWO63
    ensures CounterAfter(c, k) == Wrap64(c + k)
  {
    if k > 0 {
      CounterWraps(c, k - 1);
      var x := c + (k - 1);
      WrapShift(x);
      var d := (x - Wrap64(x)) / TWO64;
      DivModUnique((x + 1) / TWO64 - d, (x + 1) % TWO64, Wrap64(x) + 1, TWO64);
    }
  }

  function FirstAfter(c: int, k: nat, n: nat): nat
    requires n > 0
  {
    FirstPosition(CounterAfter(c, k), n)
  }

  ghost predicate OnceAmong(c: int, n: nat, p: nat)
    requires n > 0
  {
    exists k: nat :: k < n && FirstAfter(c, k, n) == p && forall i: nat :: i < n && FirstAfter(c, i, n) == p ==> i == k
  }

  /** Among `n` consecutive counter values each position comes first exactly once. */
  ghost predicate Fair(c: int, n: nat)
    requires n > 0
  {
    forall p: nat :: p < n ==> OnceAmong(c, n, p)
  }

  lemma Unwrapped(c: int, n: nat, k: nat)
    requires 0 <= c && n > 0 && c + k < TWO63
    ensures FirstAfter(c, k, n) == Turn(c, k, n)
  {
    CounterWraps(c, k);
  }

  lemma NotPositive(c: int, n: nat)
    requires n > 0 && c <= 0
    ensures FirstPosition(c, n) == 0
  {
  }

  lemma WrapsBelow(x: int)
    requires TWO63 <= x < TWO64
    ensures Wrap64(x) == x - TWO64
  {
  }

  lemma Overflowed(c: int, n: nat, k: nat)
    requires -TWO63 <= c < TWO63 && 0 < n <= TWO63 && k < n
    requires c + k >= TWO63 || c + k <= 0
    ensures FirstAfter(c, k, n) == 0
  {
    CounterWraps(c, k);
    if c + k >= TWO63 {
      WrapsBelow(c + k);
    }
    NotPositive(CounterAfter(c, k), n);
  }

  lemma TwiceZero(c: int, n: nat, i: nat, j: nat)
    requires 0 < n && i < j < n && FirstAfter(c, i, n) == 0 && FirstAfter(c, j, n) == 0
    ensures !Fair(c, n)
  {
    assert !OnceAmong(c, n, 0);
  }

  /** Where the rotation is fair: the counter must not be negative, and must not run past the
      largest 64-bit integer within the `n` calls - except by one step when the wrapped counter
      happens to continue the rotation. */
  ghost predicate InStep(c: int, n: nat)
    requires n > 0
  {
    0 <= c && (c + n <= TWO63 || (c + n == TWO63 + 1 && TWO63 % n == 0))
  }

  lemma LastWrapped(c: int, n: nat)
    requires 2 <= n <= TWO63 && 0 <= c && c + n == TWO63 + 1
    ensures FirstAfter(c, n - 1, n) == 0 && Turn(c, n - 1, n) == TWO63 % n
  {
    Overflowed(c, n, n - 1);
  }

  lemma StepIsFair(c: int, n: nat, p: nat)
    requires 2 <= n <= TWO63 && c < TWO63 && InStep(c, n) && p < n
    ensures OnceAmong(c, n, p)
  {
    forall i: nat | i < n ensures FirstAfter(c, i, n) == Turn(c, i, n) {
      if c + i < TWO63 {
        Unwrapped(c, n, i);
      } else {
        LastWrapped(c, n);
      }
    }
    var k := EachResidueOnce(c, n, p);
    assert FirstAfter(c, k, n) == p;
  }

  /** The rotation brings each of `n` positions to the front once exactly when it is in step. */
  lemma PositionsAreFair(c: int, n: nat)
    requires 2 <= n <= TWO63 && -TWO63 <= c < TWO63
    ensures Fair(c, n) <==> InStep(c, n)
  {
    if InStep(c, n) {
      forall p: nat | p < n ensures OnceAmong(c, n, p) {
        StepIsFair(c, n, p);
      }
    } else if c < 0 {
      Overflowed(c, n, 0);
      Overflowed(c, n, 1);
      TwiceZero(c, n, 0, 1);
    } else if c + n > TWO63 + 1 {
      var k := TWO63 - c;
      Overflowed(c, n, k);
      Overflowed(c, n, k + 1);
      TwiceZero(c, n, k, k + 1);
    } else {
      LastWrapped(c, n);
      var k := EachResidueOnce(c, n, 0);
      Unwrapped(c, n, k);
      TwiceZero(c, n, k, n - 1);
    }
  }

  // ---------- the answers ----------

  /** The counter after `k` answers to an unchanged list. */
  function CounterAt(l: seq<Instance>, c: int, k: nat): int {
    if k == 0 then c else NextCounter(l, CounterAt(l, c, k - 1))
  }

  lemma {:induction false} CountersAgree(l: seq<Instance>, c: int, k: nat)
    ensures CounterAt(l, c, k) == if Rotates(l) then CounterAfter(c, k) else c
  {
    if k > 0 {
      CountersAgree(l, c, k - 1);
    }
  }

  /** The instance at the head of the answer after `k` others. */
  function FirstOf(l: seq<Instance>, c: int, k: nat): Instance
    requires l != []
  {
    AnswerIsRotatedOrder(l, CounterAt(l, c, k));
    assert |multiset(l)| == |l|;
    Answer(l, CounterAt(l, c, k))[0]
  }

  /** Which of the next `|l|` answers begin with `x`. */
  ghost function Turns(l: seq<Instance>, c: int, x: Instance): set<nat>
    requires l != []
  {
    set k: nat | k < |l| && FirstOf(l, c, k) == x
  }

  ghost predicate EachFirstOnce(l: seq<Instance>, c: int)
    requires l != []
  {
    forall x :: x in l ==> |Turns(l, c, x)| == 1
  }

  lemma FirstIsAt(l: seq<Instance>, c: int, k: nat)
    requires Rotates(l)
    ensures FirstOf(l, c, k) == ExchangeSort(l, 0)[FirstAfter(c, k, |l|)]
  {
    CountersAgree(l, c, k);
    AnswerIsRotatedOrder(l, CounterAt(l, c, k));
  }

  /** For a list that rotates, the answers that begin with the instance at position `p` of the
      descending order are those whose counter value brings `p` to the front. */
  lemma TurnsOfPosition(l: seq<Instance>, c: int, p: nat)
    requires Distinct(l) && Rotates(l) && p < |l|
    ensures |Turns(l, c, ExchangeSort(l, 0)[p])| == 1 <==> OnceAmong(c, |l|, p)
  {
    var order, n := ExchangeSort(l, 0), |l|;
    SortDescends(l, 0);
    SameElements(l, order);
    var turns := Turns(l, c, order[p]);
    forall k: nat ensures k in turns <==> k < n && FirstAfter(c, k, n) == p {
      FirstIsAt(l, c, k);
    }
    SizeOne(turns);
  }

  lemma NeverFirst(l: seq<Instance>, c: int)
    requires Distinct(l) && |l| >= 2 && !Rotates(l)
    ensures Turns(l, c, l[1]) == {}
  {
    forall k: nat ensures FirstOf(l, c, k) == l[0] {
      CountersAgree(l, c, k);
    }
  }

  /** Each instance comes first in exactly one of as many consecutive answers as there are instances
      exactly when the list rotates at all and its counter is in step. */
  lemma RotationIsFair(l: seq<Instance>, c: int)
    requires Distinct(l) && 2 <= |l| <= TWO63 && -TWO63 <= c < TWO63
    ensures EachFirstOnce(l, c) <==> Rotates(l) && InStep(c, |l|)
  {
    if Rotates(l) {
      var order := ExchangeSort(l, 0);
      SortDescends(l, 0);
      SameElements(l, order);
      PositionsAreFair(c, |l|);
      forall p: nat | p < |l| ensures |Turns(l, c, order[p])| == 1 <==> OnceAmong(c, |l|, p) {
        TurnsOfPosition(l, c, p);
      }
      assert forall x :: x in l <==> x in Elements(order);
      assert forall p: nat :: p < |l| ==> order[p] in l;
    } else {
      NeverFirst(l, c);
      assert l[1] in l && |Turns(l, c, l[1])| == 0;
    }
  }

  /** Heavier instances come first more often. */
  ghost predicate FavoursWeight(l: seq<Instance>, c: int)
    requires l != []
  {
    forall x, y :: x in l && y in l && x.weight > y.weight ==> |Turns(l, c, x)| > |Turns(l, c, y)|
  }

  /** So a rotation in step favours heavier instances exactly when there are none. */
  lemma WeightIsIgnored(l: seq<Instance>, c: int)
    requires Distinct(l) && |l| <= TWO63 && -TWO63 <= c < TWO63
    requires Rotates(l) && InStep(c, |l|)
    ensures FavoursWeight(l, c) <==> forall x, y :: x in l && y in l ==> x.weight == y.weight
  {
    RotationIsFair(l, c);
  }
}
