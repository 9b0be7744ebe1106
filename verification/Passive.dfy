/** Consumer-reported failures in a sliding window that is pruned whenever it is counted. */
module Passive {
  import opened Sequences

  /** What happens in a run: the operations of the tracker, with the times read from one clock, and
      the writes of the stored health flag, which do not touch the tracker. */
  datatype Op =
    | Fail(id: nat, time: int)
    | Succeed(id: nat)
    | Count(id: nat, time: int, window: int)
    | SetHealthy(id: nat, healthy: bool)

  predicate Timed(op: Op) {
    op.Fail? || op.Count?
  }

  type Events = map<nat, seq<int>>

  function Stored(events: Events, id: nat): seq<int> {
    if id in events then events[id] else []
  }

  /** The failures later than a cutoff. */
  function Later(times: seq<int>, cutoff: int): seq<int> {
    if times == [] then []
    else
      var t := times[|times| - 1];
      var before := Later(times[..|times| - 1], cutoff);
      if t > cutoff then before + [t] else before
  }

  function Apply(events: Events, op: Op): Events {
    match op
    case Fail(id, t) => events[id := Stored(events, id) + [t]]
    case Succeed(id) => events - {id}
    case Count(id, t, w) => events[id := Later(Stored(events, id), t - w)]
    case SetHealthy(_, _) => events
  }

  function Run(h: seq<Op>): Events {
    if h == [] then map[] else Apply(Run(h[..|h| - 1]), h[|h| - 1])
  }

  class Tracker {
    var events: Events
    ghost var history: seq<Op>

    ghost predicate Valid()
      reads this
    {
      events == Run(history)
    }

    constructor ()
      ensures Valid() && events == map[] && history == []
    {
      events, history := map[], [];
    }

    method ReportFailure(id: nat, now: int)
      requires Valid()
      modifies this
      ensures Valid() && history == old(history) + [Fail(id, now)]
      ensures events == old(events)[id := (if id in old(events) then old(events)[id] else []) + [now]]
    {
      events := events[id := Stored(events, id) + [now]];
      history := history + [Fail(id, now)];
      assert history[..|history| - 1] == old(history);
    }

    method ReportSuccess(id: nat)
      requires Valid()
      modifies this
      ensures Valid() && history == old(history) + [Succeed(id)]
      ensures events == old(events) - {id}
    {
      events := events - {id};
      history := history + [Succeed(id)];
      assert history[..|history| - 1] == old(history);
    }

    /** Keeps the failures inside the window and returns how many they are. */
    method FailureCount(id: nat, now: int, window: int) returns (count: nat)
      requires Valid()
      modifies this
      ensures Valid() && history == old(history) + [Count(id, now, window)]
      ensures count == CountAt(history, |history| - 1)
      ensures var left := Later(if id in old(events) then old(events)[id] else [], now - window);
              events == old(events)[id := left] && count == |left|
    {
      var cutoff := now - window;
      var list := Stored(events, id);
      var valid := [];
      count := 0;
      for i := 0 to |list|
        invariant valid == Later(list[..i], cutoff) && count == |valid|
      {
        assert list[..i + 1][..i] == list[..i];
        if list[i] > cutoff {
          valid := valid + [list[i]];
          count := count + 1;
        }
      }
      assert list[..|list|] == list;
      events := events[id := valid];
      history := history + [Count(id, now, window)];
      assert history[..|history| - 1] == old(history);
      assert history[..|history|] == history;
    }
  }

  /** What the count at position `i` of a history returns. */
  function CountAt(h: seq<Op>, i: nat): nat
    requires i < |h| && h[i].Count?
  {
    |Stored(Run(h[..i + 1]), h[i].id)|
  }

  // ---------- the full history ----------

  /** Every failure of the instance since its last success, never pruned. */
  function Unpruned(h: seq<Op>, id: nat): seq<int> {
    if h == [] then []
    else
      var before := Unpruned(h[..|h| - 1], id);
      match h[|h| - 1]
      case Fail(i, t) => if i == id then before + [t] else before
      case Succeed(i) => if i == id then [] else before
      case _ => before
  }

  datatype Cutoff = Never | At(time: int)

  function Max(a: int, b: int): int {
    if a > b then a else b
  }

  /** The greatest cutoff any count of the instance ever used. */
  function GreatestCutoff(h: seq<Op>, id: nat): Cutoff {
    if h == [] then Never
    else
      var before := GreatestCutoff(h[..|h| - 1], id);
      var op := h[|h| - 1];
      if op.Count? && op.id == id
      then (if before.Never? then At(op.time - op.window) else At(Max(before.time, op.time - op.window)))
      else before
  }

  function After(times: seq<int>, c: Cutoff): seq<int> {
    if c.Never? then times else Later(times, c.time)
  }

  /** No operation is before `now`. */
  ghost predicate NotAfter(h: seq<Op>, now: int) {
    forall i :: 0 <= i < |h| && Timed(h[i]) ==> h[i].time <= now
  }

  /** The clock does not run back, and every window is positive. */
  ghost predicate Clocked(h: seq<Op>) {
    && (forall i, j :: 0 <= i < j < |h| && Timed(h[i]) && Timed(h[j]) ==> h[i].time <= h[j].time)
    && (forall i :: 0 <= i < |h| && h[i].Count? ==> h[i].window > 0)
  }

  lemma {:induction false} CutoffIsPast(h: seq<Op>, id: nat, now: int)
    requires Clocked(h) && NotAfter(h, now)
    ensures GreatestCutoff(h, id).At? ==> GreatestCutoff(h, id).time < now
  {
    if h != [] {
      CutoffIsPast(h[..|h| - 1], id, now);
    }
  }

  lemma LaterOfLonger(times: seq<int>, t: int, c: int)
    ensures Later(times + [t], c) == if t > c then Later(times, c) + [t] else Later(times, c)
  {
    assert (times + [t])[..|times|] == times;
  }

  /** Exactly the failures after the cutoff are kept, each as often as before. */
  lemma {:induction false} LaterKeeps(times: seq<int>, cutoff: int, t: int)
    ensures multiset(Later(times, cutoff))[t] == if t > cutoff then multiset(times)[t] else 0
  {
    if times != [] {
      LaterKeeps(times[..|times| - 1], cutoff, t);
      assert times == times[..|times| - 1] + [times[|times| - 1]];
    }
  }

  lemma {:induction false} LaterTwice(times: seq<int>, a: int, b: int)
    ensures Later(Later(times, a), b) == Later(times, Max(a, b))
  {
    if times != [] {
      var init, t := times[..|times| - 1], times[|times| - 1];
      LaterTwice(init, a, b);
      LaterOfLonger(Later(init, a), t, b);
    }
  }

  /** What one more operation does to the reference. */
  lemma OneMore(before: seq<Op>, op: Op, id: nat)
    ensures Unpruned(before + [op], id) ==
            if op.Fail? && op.id == id then Unpruned(before, id) + [op.time]
            else if op == Succeed(id) then [] else Unpruned(before, id)
    ensures op.Count? && op.id == id ==>
              GreatestCutoff(before + [op], id) ==
              At(if GreatestCutoff(before, id).At?
                 then Max(GreatestCutoff(before, id).time, op.time - op.window) else op.time - op.window)
    ensures !(op.Count? && op.id == id) ==> GreatestCutoff(before + [op], id) == GreatestCutoff(before, id)
    ensures Run(before + [op]) == Apply(Run(before), op)
  {
    assert (before + [op])[..|before|] == before;
  }

  /** A new failure is later than every cutoff so far, so it is kept beside what was. */
  lemma FailRefines(before: seq<Op>, id: nat, time: int)
    requires GreatestCutoff(before, id).At? ==> GreatestCutoff(before, id).time < time
    ensures After(Unpruned(before, id) + [time], GreatestCutoff(before, id)) ==
            After(Unpruned(before, id), GreatestCutoff(before, id)) + [time]
  {
    var cut := GreatestCutoff(before, id);
    if cut.At? {
      LaterOfLonger(Unpruned(before, id), time, cut.time);
    }
  }

  /** Pruning what is stored is pruning the full history at the greater cutoff. */
  lemma CountRefines(before: seq<Op>, id: nat, cutoff: int)
    ensures Later(After(Unpruned(before, id), GreatestCutoff(before, id)), cutoff) ==
            Later(Unpruned(before, id),
                  if GreatestCutoff(before, id).At? then Max(GreatestCutoff(before, id).time, cutoff) else cutoff)
  {
    var cut := GreatestCutoff(before, id);
    if cut.At? {
      LaterTwice(Unpruned(before, id), cut.time, cutoff);
    }
  }

  lemma ClockedBefore(before: seq<Op>, op: Op)
    requires Clocked(before + [op])
    ensures Clocked(before) && (Timed(op) ==> NotAfter(before, op.time))
  {
    var h := before + [op];
    assert h[|before|] == op && forall i :: 0 <= i < |before| ==> h[i] == before[i];
  }

  lemma PruningStep(before: seq<Op>, op: Op, id: nat)
    requires Clocked(before) && (Timed(op) ==> NotAfter(before, op.time))
    requires Stored(Run(before), id) == After(Unpruned(before, id), GreatestCutoff(before, id))
    ensures Stored(Run(before + [op]), id) == After(Unpruned(before + [op], id), GreatestCutoff(before + [op], id))
  {
    OneMore(before, op, id);
    if op.Fail? && op.id == id {
      CutoffIsPast(before, id, op.time);
      FailRefines(before, id, op.time);
    } else if op.Count? && op.id == id {
      CountRefines(before, id, op.time - op.window);
    }
  }

  /** Pruning refines the full history: what is stored for an instance are exactly its failures
      since the last success that are later than the greatest cutoff ever used for it. */
  lemma {:induction false} PruningRefines(h: seq<Op>, id: nat)
    requires Clocked(h)
    ensures Stored(Run(h), id) == After(Unpruned(h, id), GreatestCutoff(h, id))
  {
    if h != [] {
      var before, op := h[..|h| - 1], h[|h| - 1];
      assert h == before + [op];
      ClockedBefore(before, op);
      PruningRefines(before, id);
      PruningStep(before, op, id);
    }
  }

  // ---------- when a count is that of the full history ----------

  /** The failures that a count of this window should see but an earlier, later cutoff has pruned. */
  ghost predicate Hidden(h: seq<Op>, id: nat, cutoff: int) {
    exists t :: t in Unpruned(h, id) && t > cutoff && GreatestCutoff(h, id).At? && t <= GreatestCutoff(h, id).time
  }

  ghost predicate NoneBetween(times: seq<int>, a: int, b: int) {
    forall t :: t in times ==> !(a < t <= b)
  }

  lemma {:induction false} FewerLater(times: seq<int>, a: int, b: int)
    requires a <= b
    ensures |Later(times, b)| <= |Later(times, a)|
    ensures |Later(times, b)| == |Later(times, a)| <==> NoneBetween(times, a, b)
  {
    if times != [] {
      var init, t := times[..|times| - 1], times[|times| - 1];
      FewerLater(init, a, b);
      assert times == init + [t];
      assert t in times && forall u :: u in times <==> u in init || u == t;
      assert NoneBetween(times, a, b) <==> NoneBetween(init, a, b) && !(a < t <= b);
    }
  }

  /** What a count returns: the failures later than its own cutoff and than every earlier one. */
  lemma CountIsCut(h: seq<Op>, id: nat, now: int, window: int)
    requires Clocked(h + [Count(id, now, window)])
    ensures var cut := GreatestCutoff(h, id);
            CountAt(h + [Count(id, now, window)], |h|) ==
            |Later(Unpruned(h, id), if cut.At? then Max(cut.time, now - window) else now - window)|
  {
    var g := h + [Count(id, now, window)];
    assert g[..|h| + 1] == g;
    PruningRefines(g, id);
    OneMore(h, Count(id, now, window), id);
  }

  /** A count equals the count over the unpruned history exactly when no failure is hidden. */
  lemma CountIsExact(h: seq<Op>, id: nat, now: int, window: int)
    requires Clocked(h + [Count(id, now, window)])
    ensures CountAt(h + [Count(id, now, window)], |h|) == |Later(Unpruned(h, id), now - window)|
       <==> !Hidden(h, id, now - window)
  {
    CountIsCut(h, id, now, window);
    var cut := GreatestCutoff(h, id);
    if cut.At? && cut.time > now - window {
      FewerLater(Unpruned(h, id), now - window, cut.time);
    }
  }

  /** With one fixed window nothing is ever hidden, so every count is exact. */
  lemma FixedWindowIsExact(h: seq<Op>, id: nat, now: int, window: int)
    requires Clocked(h + [Count(id, now, window)])
    requires forall i :: 0 <= i < |h| && h[i].Count? && h[i].id == id ==> h[i].window == window
    ensures CountAt(h + [Count(id, now, window)], |h|) == |Later(Unpruned(h, id), now - window)|
  {
    var g := h + [Count(id, now, window)];
    assert g[|h|] == Count(id, now, window);
    forall i | 0 <= i < |h| ensures h[i] == g[i] {
    }
    CutoffIsSome(h, id);
    CountIsExact(h, id, now, window);
  }

  lemma {:induction false} CutoffIsSome(h: seq<Op>, id: nat)
    ensures GreatestCutoff(h, id).At? ==>
              exists i :: 0 <= i < |h| && h[i].Count? && h[i].id == id
                          && GreatestCutoff(h, id).time == h[i].time - h[i].window
  {
    if h != [] {
      var before := h[..|h| - 1];
      CutoffIsSome(before, id);
      if GreatestCutoff(h, id) == GreatestCutoff(before, id) && GreatestCutoff(before, id).At? {
        var i :| 0 <= i < |before| && before[i].Count? && before[i].id == id
                 && GreatestCutoff(before, id).time == before[i].time - before[i].window;
        assert h[i] == before[i];
      }
    }
  }

  function OldFailure(): seq<Op> {
    [Fail(1, 0), Count(1, 10, 5)]
  }

  lemma OldFailurePruned()
    ensures Unpruned(OldFailure(), 1) == [0] && GreatestCutoff(OldFailure(), 1) == At(5)
  {
    assert OldFailure() == [Fail(1, 0)] + [Count(1, 10, 5)];
    OneMore([Fail(1, 0)], Count(1, 10, 5), 1);
    assert [Fail(1, 0)] == [] + [Fail(1, 0)];
    OneMore([], Fail(1, 0), 1);
  }

  lemma OldFailureClocked()
    ensures Clocked(OldFailure() + [Count(1, 10, 20)])
  {
    assert OldFailure() + [Count(1, 10, 20)] == [Fail(1, 0), Count(1, 10, 5), Count(1, 10, 20)];
  }

  /** With a window that grows, it can be: the failure at 0 lies inside the last window. */
  lemma GrowingWindowUndercounts()
    ensures var h := OldFailure();
            Clocked(h + [Count(1, 10, 20)])
            && CountAt(h + [Count(1, 10, 20)], |h|) == 0 && |Later(Unpruned(h, 1), 10 - 20)| == 1
  {
    OldFailureClocked();
    OldFailurePruned();
    CountIsCut(OldFailure(), 1, 10, 20);
    LaterOfOne(0, 5);
    LaterOfOne(0, -10);
  }

  lemma LaterOfOne(t: int, c: int)
    ensures Later([t], c) == if t > c then [t] else []
  {
    assert [] + [t] == [t];
    LaterOfLonger([], t, c);
  }

  // ---------- concurrent reports ----------

  /** The positions of the instance's failures since its last success that are later than a cutoff. */
  ghost function Recent(h: seq<Op>, id: nat, c: Cutoff): set<nat> {
    set i: nat | i < |h| && h[i].Fail? && h[i].id == id && (c.At? ==> h[i].time > c.time) && NoSuccess(h, id, i)
  }

  ghost predicate NoSuccess(h: seq<Op>, id: nat, from: nat) {
    forall j :: from <= j < |h| ==> h[j] != Succeed(id)
  }

  /** What the reference counts: one for each report of the instance after its last success, that is
      later than the cutoff. */
  lemma {:induction false} RecentCounted(h: seq<Op>, id: nat, c: Cutoff)
    ensures |After(Unpruned(h, id), c)| == |Recent(h, id, c)|
  {
    if h == [] {
      assert Recent(h, id, c) == {};
    } else {
      var before, op := h[..|h| - 1], h[|h| - 1];
      assert h == before + [op];
      RecentCounted(before, id, c);
      OneMore(before, op, id);
      RecentOfLonger(before, op, id, c);
      if op.Fail? && c.At? {
        LaterOfLonger(Unpruned(before, id), op.time, c.time);
      }
    }
  }

  lemma RecentOfLonger(before: seq<Op>, op: Op, id: nat, c: Cutoff)
    ensures Recent(before + [op], id, c) ==
            if op == Succeed(id) then {}
            else if op.Fail? && op.id == id && (c.At? ==> op.time > c.time) then Recent(before, id, c) + {|before|}
            else Recent(before, id, c)
  {
    var h, n := before + [op], |before|;
    if op == Succeed(id) {
      forall i: nat | i < |h| ensures !NoSuccess(h, id, i) {
        assert h[n] == Succeed(id);
      }
    } else {
      forall i: nat | i < n ensures NoSuccess(h, id, i) <==> NoSuccess(before, id, i) {
        assert forall j :: i <= j < n ==> h[j] == before[j];
      }
      assert forall i: nat :: i < n ==> h[i] == before[i];
      assert NoSuccess(h, id, n);
    }
  }

  lemma {:induction false} LastOf(cnt: seq<nat>) returns (c: nat)
    requires cnt != []
    ensures c < |cnt| && forall d :: 0 <= d < |cnt| ==> cnt[d] <= cnt[c]
  {
    if |cnt| == 1 {
      c := 0;
    } else {
      c := LastOf(cnt[..|cnt| - 1]);
      if cnt[|cnt| - 1] > cnt[c] {
        c := |cnt| - 1;
      }
    }
  }

  /** Report `c` records its failure at step `rec[c]` and counts at step `cnt[c]`. */
  ghost predicate Reports(h: seq<Op>, id: nat, rec: seq<nat>, cnt: seq<nat>) {
    && |rec| == |cnt|
    && (forall c :: 0 <= c < |rec| ==> rec[c] < cnt[c] < |h|)
    && (forall c :: 0 <= c < |rec| ==> h[rec[c]].Fail? && h[rec[c]].id == id)
    && (forall c :: 0 <= c < |cnt| ==> h[cnt[c]].Count? && h[cnt[c]].id == id)
    && Distinct(rec)
  }

  /** All inside one window: up to the last of their counts, no count of the instance cuts off a
      report, and no success follows one. */
  ghost predicate Together(h: seq<Op>, id: nat, rec: seq<nat>, cnt: seq<nat>)
    requires Reports(h, id, rec, cnt)
  {
    forall c, d :: 0 <= c < |rec| && 0 <= d < |cnt| ==> Uncut(h, id, rec[c], cnt[d])
  }

  /** Up to position `until` the failure at position `at` is neither cleared nor cut off. */
  ghost predicate Uncut(h: seq<Op>, id: nat, at: nat, until: nat)
    requires at < |h| && until < |h| && h[at].Fail?
  {
    && (forall i :: at <= i <= until ==> h[i] != Succeed(id))
    && (forall i :: 0 <= i <= until && h[i].Count? && h[i].id == id ==> h[i].time - h[i].window < h[at].time)
  }

  lemma UncutIsRecent(h: seq<Op>, id: nat, at: nat, until: nat)
    requires at <= until < |h| && h[at].Fail? && h[at].id == id && Uncut(h, id, at, until)
    ensures at in Recent(h[..until + 1], id, GreatestCutoff(h[..until + 1], id))
  {
    var p := h[..until + 1];
    assert forall i :: 0 <= i < |p| ==> p[i] == h[i];
    CutoffIsSome(p, id);
    assert NoSuccess(p, id, at);
  }

  /** No lost crossing: in every interleaving of the record and count steps of K reports for one
      instance, among any other operations, the report that counts last counts at least K. So some
      report reaches every threshold up to K. */
  lemma NoLostCrossing(h: seq<Op>, id: nat, rec: seq<nat>, cnt: seq<nat>) returns (c: nat)
    requires Clocked(h) && rec != [] && Reports(h, id, rec, cnt) && Together(h, id, rec, cnt)
    ensures c < |cnt| && CountAt(h, cnt[c]) >= |rec|
  {
    c := LastOf(cnt);
    var p := h[..cnt[c] + 1];
    var cut := GreatestCutoff(p, id);
    assert Clocked(p);
    PruningRefines(p, id);
    RecentCounted(p, id, cut);
    forall d | 0 <= d < |rec| ensures rec[d] in Recent(p, id, cut) {
      UncutIsRecent(h, id, rec[d], cnt[c]);
    }
    CountDistinct(rec);
    SubsetSize(Elements(rec), Recent(p, id, cut));
  }

  /** Report `c` has threshold `thr[c]`; if its count reaches it, it writes the cleared flag at
      `clr[c]`, unless the write fails. */
  ghost predicate Clears(h: seq<Op>, id: nat, cnt: seq<nat>, thr: seq<nat>, clr: seq<nat>, saved: seq<bool>)
    requires forall c :: 0 <= c < |cnt| ==> cnt[c] < |h| && h[cnt[c]].Count?
  {
    && |thr| == |clr| == |saved| == |cnt|
    && forall c :: 0 <= c < |cnt| && CountAt(h, cnt[c]) >= thr[c] && saved[c] ==>
                     cnt[c] < clr[c] < |h| && h[clr[c]] == SetHealthy(id, false)
  }

  /** The stored flag: the last write. */
  function FlagAfter(h: seq<Op>, id: nat, initially: bool): bool {
    if h == [] then initially
    else
      var op := h[|h| - 1];
      if op.SetHealthy? && op.id == id then op.healthy else FlagAfter(h[..|h| - 1], id, initially)
  }

  lemma {:induction false} StaysCleared(h: seq<Op>, id: nat, initially: bool, at: nat)
    requires at < |h| && h[at] == SetHealthy(id, false)
    requires forall i :: at < i < |h| ==> h[i] != SetHealthy(id, true)
    ensures !FlagAfter(h, id, initially)
  {
    if at < |h| - 1 {
      StaysCleared(h[..|h| - 1], id, initially, at);
    }
  }

  /** So of K concurrent reports, whose record, count and write steps interleave in any way among
      other operations, one reaches its threshold when none is above K; and unless its write fails
      the flag is cleared, and stays so unless something else sets it afterwards. */
  lemma CrossingClearsFlag(h: seq<Op>, id: nat, rec: seq<nat>, cnt: seq<nat>, thr: seq<nat>, clr: seq<nat>,
                           saved: seq<bool>, initially: bool)
    returns (c: nat)
    requires Clocked(h) && rec != [] && Reports(h, id, rec, cnt) && Together(h, id, rec, cnt)
    requires Clears(h, id, cnt, thr, clr, saved) && forall d :: 0 <= d < |thr| ==> thr[d] <= |rec|
    ensures c < |clr| && CountAt(h, cnt[c]) >= thr[c]
    ensures saved[c] ==> cnt[c] < clr[c] < |h| && h[clr[c]] == SetHealthy(id, false)
    ensures saved[c] && (forall i :: clr[c] < i < |h| ==> h[i] != SetHealthy(id, true)) ==> !FlagAfter(h, id, initially)
  {
    c := NoLostCrossing(h, id, rec, cnt);
    assert thr[c] <= |rec|;
    if saved[c] && forall i :: clr[c] < i < |h| ==> h[i] != SetHealthy(id, true) {
      StaysCleared(h, id, initially, clr[c]);
    }
  }
}
