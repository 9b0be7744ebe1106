/** The health checker: consecutive probe counters with two thresholds, and consumer reports. */
module Health {
  import opened Passive

  // ---------- one instance under probes ----------

  datatype Thresholds = Thresholds(fail: nat, recovery: nat)

  /** The stored health flag and the two counters. */
  datatype Probed = Probed(healthy: bool, fails: nat, successes: nat)

  function Probe(s: Probed, ok: bool, t: Thresholds): Probed {
    if ok
    then Probed(s.healthy || s.successes + 1 >= t.recovery, 0, s.successes + 1)
    else Probed(s.healthy && s.fails + 1 < t.fail, s.fails + 1, 0)
  }

  function Probes(s: Probed, probes: seq<bool>, t: Thresholds): Probed {
    if probes == [] then s else Probe(Probes(s, probes[..|probes| - 1], t), probes[|probes| - 1], t)
  }

  /** The length of the run of equal outcomes at the end. */
  function Trailing(probes: seq<bool>, ok: bool): nat {
    if probes == [] || probes[|probes| - 1] != ok then 0 else 1 + Trailing(probes[..|probes| - 1], ok)
  }

  lemma TrailingExtends(probes: seq<bool>, ok: bool)
    ensures Trailing(probes + [ok], ok) == Trailing(probes, ok) + 1 && Trailing(probes + [ok], !ok) == 0
  {
    assert (probes + [ok])[..|probes|] == probes;
  }

  /** Independently of the counters: the outcome of the last streak that reached its threshold. */
  function LastStreak(probes: seq<bool>, initially: bool, t: Thresholds): bool {
    if Trailing(probes, true) >= t.recovery then true
    else if Trailing(probes, false) >= t.fail then false
    else if probes == [] then initially
    else LastStreak(probes[..|probes| - 1], initially, t)
  }

  function Fresh(healthy: bool): Probed {
    Probed(healthy, 0, 0)
  }

  /** The counters are the trailing runs, never both positive, and the flag tells the last streak
      that was long enough. */
  lemma {:induction false} CountersAreStreaks(healthy: bool, probes: seq<bool>, t: Thresholds)
    requires t.fail >= 1 && t.recovery >= 1
    ensures var s := Probes(Fresh(healthy), probes, t);
            && s.fails == Trailing(probes, false) && s.successes == Trailing(probes, true)
            && (s.fails == 0 || s.successes == 0)
            && s.healthy == LastStreak(probes, healthy, t)
  {
    if probes != [] {
      CountersAreStreaks(healthy, probes[..|probes| - 1], t);
    }
  }

  /** How often the flag changed during the probes. */
  function Flips(s: Probed, probes: seq<bool>, t: Thresholds): nat {
    if probes == [] then 0
    else
      var before := probes[..|probes| - 1];
      Flips(s, before, t) + (if Probes(s, probes, t).healthy != Probes(s, before, t).healthy then 1 else 0)
  }

  /** What `m` flips cost, beginning healthy: failures and successes in turn. */
  function Cost(m: nat, t: Thresholds): nat {
    if m == 0 then 0 else Cost(m - 1, t) + (if m % 2 == 1 then t.fail else t.recovery)
  }

  lemma OneMoreTime(k: nat, x: nat)
    ensures (k + 1) * x == k * x + x
  {
  }

  lemma {:induction false} CostInClosedForm(m: nat, t: Thresholds)
    ensures Cost(m, t) == (m + 1) / 2 * t.fail + m / 2 * t.recovery
  {
    if m > 0 {
      CostInClosedForm(m - 1, t);
      var k := (m - 1) / 2;
      if m % 2 == 1 {
        assert m / 2 == k && (m + 1) / 2 == k + 1;
        OneMoreTime(k, t.fail);
      } else {
        assert m / 2 == k + 1 && (m + 1) / 2 == k + 1;
        OneMoreTime(k, t.recovery);
      }
    }
  }

  lemma {:induction false} FlipsArePaid(probes: seq<bool>, t: Thresholds)
    requires t.fail >= 1 && t.recovery >= 1
    ensures var s := Probes(Fresh(true), probes, t);
            var m := Flips(Fresh(true), probes, t);
            && s.healthy == (m % 2 == 0)
            && |probes| >= Cost(m, t) + (if s.healthy then s.fails else s.successes)
  {
    if probes != [] {
      FlipsArePaid(probes[..|probes| - 1], t);
    }
  }

  /** No flapping: from healthy with zero counters, `m` flips of the flag need at least that many
      probes ... */
  lemma FlipsNeedProbes(probes: seq<bool>, t: Thresholds)
    requires t.fail >= 1 && t.recovery >= 1
    ensures var m := Flips(Fresh(true), probes, t);
            |probes| >= (m + 1) / 2 * t.fail + m / 2 * t.recovery
  {
    FlipsArePaid(probes, t);
    CostInClosedForm(Flips(Fresh(true), probes, t), t);
  }

  lemma {:induction false} Repeat(probes: seq<bool>, ok: bool, n: nat, t: Thresholds) returns (longer: seq<bool>)
    requires t.fail >= 1 && t.recovery >= 1
    requires var s := Probes(Fresh(true), probes, t);
             s.healthy != ok && (if ok then s.successes == 0 && n < t.recovery else s.fails == 0 && n < t.fail)
    ensures |longer| == |probes| + n && Flips(Fresh(true), longer, t) == Flips(Fresh(true), probes, t)
    ensures var s := Probes(Fresh(true), longer, t);
            s.healthy != ok && (if ok then s.successes == n else s.fails == n)
    ensures n == 0 ==> longer == probes
  {
    if n == 0 {
      longer := probes;
    } else {
      var before := Repeat(probes, ok, n - 1, t);
      longer := before + [ok];
      assert longer[..|longer| - 1] == before;
    }
  }

  lemma CompletesFlip(probes: seq<bool>, ok: bool, t: Thresholds)
    requires var s := Probes(Fresh(true), probes, t);
             s.healthy != ok && (if ok then s.successes + 1 == t.recovery else s.fails + 1 == t.fail)
    ensures Flips(Fresh(true), probes + [ok], t) == Flips(Fresh(true), probes, t) + 1
    ensures var s := Probes(Fresh(true), probes + [ok], t);
            s.healthy == ok && (if ok then s.fails == 0 else s.successes == 0)
  {
    assert (probes + [ok])[..|probes|] == probes;
  }

  /** ... and some sequence of exactly that many achieves them, for every `m`. */
  lemma {:induction false} FlipsAreCheap(m: nat, t: Thresholds) returns (probes: seq<bool>)
    requires t.fail >= 1 && t.recovery >= 1
    ensures |probes| == (m + 1) / 2 * t.fail + m / 2 * t.recovery
    ensures Flips(Fresh(true), probes, t) == m
    ensures var s := Probes(Fresh(true), probes, t);
            s.healthy == (m % 2 == 0) && (if s.healthy then s.fails == 0 else s.successes == 0)
  {
    CostInClosedForm(m, t);
    if m == 0 {
      probes := [];
    } else {
      var before := FlipsAreCheap(m - 1, t);
      CostInClosedForm(m - 1, t);
      var ok := m % 2 == 0;
      var almost := Repeat(before, ok, (if ok then t.recovery else t.fail) - 1, t);
      CompletesFlip(almost, ok, t);
      probes := almost + [ok];
    }
  }

  // ---------- probes and other writes of the flag together ----------

  /** What happens to one instance: a probe, whose write of the flag may be lost, or a write by a
      consumer report, a heartbeat timeout or a registration. Those leave the counters alone. */
  datatype Event = Outcome(ok: bool, applied: bool) | Written(healthy: bool)

  function Happen(s: Probed, e: Event, t: Thresholds): Probed {
    match e
    case Outcome(ok, applied) =>
      var next := Probe(s, ok, t);
      if applied then next else next.(healthy := s.healthy)
    case Written(healthy) => s.(healthy := healthy)
  }

  function Course(s: Probed, events: seq<Event>, t: Thresholds): Probed {
    if events == [] then s else Happen(Course(s, events[..|events| - 1], t), events[|events| - 1], t)
  }

  function Outcomes(events: seq<Event>): seq<bool> {
    if events == [] then []
    else
      var before, e := Outcomes(events[..|events| - 1]), events[|events| - 1];
      if e.Outcome? then before + [e.ok] else before
  }

  function Needed(ok: bool, t: Thresholds): nat {
    if ok then t.recovery else t.fail
  }

  /** Independently of the counters: event `i` sets the flag to `v`. */
  ghost predicate Sets(events: seq<Event>, i: nat, v: bool, t: Thresholds)
    requires i < |events|
  {
    match events[i]
    case Outcome(ok, applied) => ok == v && applied && Trailing(Outcomes(events[..i + 1]), v) >= Needed(v, t)
    case Written(healthy) => healthy == v
  }

  ghost predicate NoneSets(events: seq<Event>, from: nat, v: bool, t: Thresholds) {
    forall j :: from <= j < |events| ==> !Sets(events, j, v, t)
  }

  ghost predicate SetForGood(events: seq<Event>, i: nat, t: Thresholds)
    requires i < |events|
  {
    Sets(events, i, true, t) && NoneSets(events, i + 1, false, t)
  }

  /** What a history of events says about the flag. */
  ghost predicate SaysHealthy(events: seq<Event>, initially: bool, t: Thresholds) {
    || (exists i :: 0 <= i < |events| && SetForGood(events, i, t))
    || (initially && NoneSets(events, 0, false, t))
  }

  lemma SetsEarlier(events: seq<Event>, e: Event, i: nat, v: bool, t: Thresholds)
    requires i < |events|
    ensures Sets(events + [e], i, v, t) == Sets(events, i, v, t)
  {
    assert (events + [e])[..i + 1] == events[..i + 1];
  }

  lemma SaysHealthyStep(events: seq<Event>, e: Event, initially: bool, t: Thresholds)
    ensures var longer := events + [e];
            SaysHealthy(longer, initially, t) <==>
            || Sets(longer, |events|, true, t)
            || (SaysHealthy(events, initially, t) && !Sets(longer, |events|, false, t))
  {
    var longer, n := events + [e], |events|;
    forall i, v | 0 <= i < n ensures Sets(longer, i, v, t) == Sets(events, i, v, t) {
      SetsEarlier(events, e, i, v, t);
    }
    assert forall from: nat :: from <= n ==>
                                 (NoneSets(longer, from, false, t) <==>
                                  NoneSets(events, from, false, t) && !Sets(longer, n, false, t));
    forall i: nat | i < n
      ensures SetForGood(longer, i, t) <==> SetForGood(events, i, t) && !Sets(longer, n, false, t)
    {
    }
    assert SetForGood(longer, n, t) <==> Sets(longer, n, true, t);
  }

  lemma CourseStep(s: Probed, events: seq<Event>, e: Event, t: Thresholds)
    ensures Course(s, events + [e], t) == Happen(Course(s, events, t), e, t)
    ensures Outcomes(events + [e]) == if e.Outcome? then Outcomes(events) + [e.ok] else Outcomes(events)
  {
    assert (events + [e])[..|events|] == events;
  }

  lemma {:induction false} CountersCountProbes(s: Probed, events: seq<Event>, t: Thresholds)
    requires s == Fresh(s.healthy)
    ensures Course(s, events, t).fails == Trailing(Outcomes(events), false)
    ensures Course(s, events, t).successes == Trailing(Outcomes(events), true)
  {
    if events != [] {
      var before, e := events[..|events| - 1], events[|events| - 1];
      assert events == before + [e];
      CountersCountProbes(s, before, t);
      CourseStep(s, before, e, t);
      if e.Outcome? {
        TrailingExtends(Outcomes(before), e.ok);
      }
    }
  }

  lemma EventSetsFlag(s: Probed, events: seq<Event>, e: Event, t: Thresholds)
    requires s == Fresh(s.healthy)
    ensures var after, longer, n := Course(s, events + [e], t), events + [e], |events|;
            after.healthy <==> Sets(longer, n, true, t) || (Course(s, events, t).healthy && !Sets(longer, n, false, t))
  {
    CountersCountProbes(s, events, t);
    CourseStep(s, events, e, t);
    assert (events + [e])[..|events| + 1] == events + [e];
    if e.Outcome? {
      TrailingExtends(Outcomes(events), e.ok);
    }
  }

  /** In every history of probes and other writes the counters are the trailing runs of the probes,
      and the flag is healthy exactly when some event set it and none cleared it after that, or when
      it was so from the start and none cleared it. */
  lemma {:induction false} FlagIsLastSet(initially: bool, events: seq<Event>, t: Thresholds)
    ensures var s := Course(Fresh(initially), events, t);
            && s.fails == Trailing(Outcomes(events), false) && s.successes == Trailing(Outcomes(events), true)
            && (s.healthy <==> SaysHealthy(events, initially, t))
  {
    CountersCountProbes(Fresh(initially), events, t);
    if events != [] {
      var before, e := events[..|events| - 1], events[|events| - 1];
      assert events == before + [e];
      FlagIsLastSet(initially, before, t);
      EventSetsFlag(Fresh(initially), before, e, t);
      SaysHealthyStep(before, e, initially, t);
    }
  }

  /** A history, a write that contradicts the coming probes, and `n` equal outcomes. */
  function Contradicted(h: seq<Event>, ok: bool, n: nat): seq<Event> {
    if n == 0 then h + [Written(!ok)] else Contradicted(h, ok, n - 1) + [Outcome(ok, true)]
  }

  /** Writes keep the streak: after one, `n` equal outcomes turn the flag exactly when they complete
      the streak that the probes before the write had begun. */
  lemma {:induction false} WritesKeepStreaks(initially: bool, h: seq<Event>, ok: bool, n: nat, t: Thresholds)
    ensures var s := Course(Fresh(initially), Contradicted(h, ok, n), t);
            && (if ok then s.successes else s.fails) == Trailing(Outcomes(h), ok) + n
            && (s.healthy == ok <==> n > 0 && Trailing(Outcomes(h), ok) + n >= Needed(ok, t))
  {
    if n == 0 {
      FlagIsLastSet(initially, h, t);
      CourseStep(Fresh(initially), h, Written(!ok), t);
    } else {
      WritesKeepStreaks(initially, h, ok, n - 1, t);
      CourseStep(Fresh(initially), Contradicted(h, ok, n - 1), Outcome(ok, true), t);
    }
  }

  predicate HealthyAgain(initially: bool, h: seq<Event>, n: nat, t: Thresholds) {
    Course(Fresh(initially), Contradicted(h, true, n), t).healthy
  }

  /** After any history and a trip by consumer reports, `n` successes restore the instance exactly
      when they reach the recovery threshold together with those counted before the trip. So the
      threshold is what recovery takes exactly when none was counted, or when it is one. */
  lemma RecoveryAfterTrip(initially: bool, h: seq<Event>, t: Thresholds)
    requires t.recovery >= 1
    ensures forall n: nat :: HealthyAgain(initially, h, n, t) <==>
                             n > 0 && Trailing(Outcomes(h), true) + n >= t.recovery
    ensures (forall n: nat :: HealthyAgain(initially, h, n, t) <==> n >= t.recovery) <==>
            Trailing(Outcomes(h), true) == 0 || t.recovery == 1
  {
    forall n: nat
      ensures HealthyAgain(initially, h, n, t) <==> n > 0 && Trailing(Outcomes(h), true) + n >= t.recovery
    {
      WritesKeepStreaks(initially, h, true, n, t);
    }
    assert t.recovery > 1 ==>
        (HealthyAgain(initially, h, t.recovery - 1, t) <==> Trailing(Outcomes(h), true) > 0);
  }

  // ---------- the checker ----------

  datatype Config = Config(checkInterval: int, failThreshold: int, removeTimeout: int, passiveWindow: int,
                           passiveThreshold: int, recoveryThreshold: int, activeTimeout: int)

  predicate AllPositive(c: Config) {
    && c.checkInterval > 0 && c.failThreshold > 0 && c.removeTimeout > 0 && c.passiveWindow > 0
    && c.passiveThreshold > 0 && c.recoveryThreshold > 0 && c.activeTimeout > 0
  }

  function OrDefault(setting: int, default: int): int {
    if setting <= 0 then default else setting
  }

  /** Zero or less in the configuration means the default. */
  function WithDefaults(c: Config): (r: Config)
    ensures AllPositive(r) && (r == c <==> AllPositive(c))
    ensures if c.checkInterval > 0 then r.checkInterval == c.checkInterval else r.checkInterval == 5
    ensures if c.failThreshold > 0 then r.failThreshold == c.failThreshold else r.failThreshold == 3
    ensures if c.removeTimeout > 0 then r.removeTimeout == c.removeTimeout else r.removeTimeout == 30
    ensures if c.passiveWindow > 0 then r.passiveWindow == c.passiveWindow else r.passiveWindow == 60
    ensures if c.passiveThreshold > 0 then r.passiveThreshold == c.passiveThreshold else r.passiveThreshold == 5
    ensures if c.recoveryThreshold > 0 then r.recoveryThreshold == c.recoveryThreshold else r.recoveryThreshold == 3
    ensures if c.activeTimeout > 0 then r.activeTimeout == c.activeTimeout else r.activeTimeout == 3
  {
    Config(OrDefault(c.checkInterval, 5), OrDefault(c.failThreshold, 3), OrDefault(c.removeTimeout, 30),
           OrDefault(c.passiveWindow, 60), OrDefault(c.passiveThreshold, 5), OrDefault(c.recoveryThreshold, 3),
           OrDefault(c.activeTimeout, 3))
  }

  /** Times are in nanoseconds, configured intervals in seconds. */
  const SECOND := 1_000_000_000

  /** The source compares strings: any other value is probed as well. */
  datatype CheckType = None | Active | PassiveOnly | Both | Other(name: string)

  datatype Service = Service(checkType: CheckType, proto: string, path: string, port: int, window: int, threshold: int)

  datatype Row = Row(service: string, ip: string, port: int, healthy: bool, ephemeral: bool, lastBeat: int)

  predicate SameButFlag(a: Row, b: Row) {
    a == b.(healthy := a.healthy)
  }

  datatype Target = Target(proto: string, ip: string, port: int, path: string)

  /** Where an instance is probed: the defaults, or what its service configures. */
  function ProbeTarget(row: Row, services: map<string, Service>): (t: Target)
    ensures t.ip == row.ip
  {
    if row.service in services then
      var svc := services[row.service];
      Target(svc.proto, row.ip, if svc.port > 0 then svc.port else row.port, svc.path)
    else Target("TCP", row.ip, row.port, "")
  }

  predicate ActivelyChecked(row: Row, services: map<string, Service>) {
    row.ephemeral && (row.service in services ==> services[row.service].checkType !in {None, PassiveOnly})
  }

  function Lookup(m: map<nat, nat>, id: nat): nat {
    if id in m then m[id] else 0
  }

  /** What the check of an instance makes happen: nothing, a timeout, or a probe. The checker decides
      by the flag it listed, `flag` is the stored one: where they differ, a probe writes nothing new. */
  function Checking(flag: bool, listed: Row, services: map<string, Service>, now: int, removeTimeout: int,
                    ok: bool, saved: bool): seq<Event>
  {
    if !ActivelyChecked(listed, services) then []
    else if now - listed.lastBeat > removeTimeout * SECOND then
      if listed.healthy && saved then [Written(false)] else []
    else [Outcome(ok, saved && listed.healthy == flag)]
  }

  /** What becomes of a listed row. Persistent instances are never checked, nor those whose service
      wants no check or passive ones only; every other check type is probed. A row is timed out when
      its last beat is more than the timeout old, and not before. */
  lemma WhichAreChecked(flag: bool, listed: Row, services: map<string, Service>, now: int, removeTimeout: int,
                        ok: bool, saved: bool)
    ensures var events := Checking(flag, listed, services, now, removeTimeout, ok, saved);
            var known := listed.service in services;
            && (!listed.ephemeral ==> events == [])
            && (known && services[listed.service].checkType in {None, PassiveOnly} ==> events == [])
            && (listed.ephemeral && !(known && services[listed.service].checkType in {None, PassiveOnly}) ==>
                  var late := now > listed.lastBeat + removeTimeout * 1_000_000_000;
                  && (late && listed.healthy && saved ==> events == [Written(false)])
                  && (late && !(listed.healthy && saved) ==> events == [])
                  && (!late ==> events == [Outcome(ok, saved && listed.healthy == flag)]))
  {
  }

  /** Where it is probed: at its own ip, with the protocol and path of its service, at the port its
      service sets, or its own; without a service over TCP at its own port. */
  lemma WhereProbed(row: Row, services: map<string, Service>, svc: Service)
    ensures row.service !in services ==> ProbeTarget(row, services) == Target("TCP", row.ip, row.port, "")
    ensures svc.port > 0 ==>
              ProbeTarget(row, services[row.service := svc]) == Target(svc.proto, row.ip, svc.port, svc.path)
    ensures svc.port <= 0 ==>
              ProbeTarget(row, services[row.service := svc]) == Target(svc.proto, row.ip, row.port, svc.path)
  {
  }

  /** A probe judged by a listed flag that is no longer the stored one acts like a lost write. */
  lemma StaleListing(s: Probed, listed: bool, ok: bool, saved: bool, t: Thresholds)
    ensures var after := Happen(s, Outcome(ok, saved && listed == s.healthy), t);
            after.healthy == if saved && listed != ok && (if ok then after.successes else after.fails) >= Needed(ok, t)
            then ok else s.healthy
  {
  }

  class Checker {
    const cfg: Config
    const thresholds: Thresholds
    const tracker: Tracker
    var rows: map<nat, Row>
    var activeFails: map<nat, nat>
    var activeSuccess: map<nat, nat>
    ghost const began: set<nat>
    ghost var events: map<nat, seq<Event>>
    ghost var led: map<nat, Probed>

    constructor (cfg: Config, rows: map<nat, Row>)
      ensures Valid() && fresh(tracker) && tracker.Valid() && tracker.history == []
      ensures this.rows == rows && forall id: nat :: EventsOf(id) == []
      ensures this.cfg == WithDefaults(cfg)
    {
      this.cfg := WithDefaults(cfg);
      thresholds := Thresholds(WithDefaults(cfg).failThreshold, WithDefaults(cfg).recoveryThreshold);
      tracker := new Tracker();
      this.rows, activeFails, activeSuccess, events, led := rows, map[], map[], map[], map[];
      began := set id | id in rows && rows[id].healthy;
    }

    ghost function EventsOf(id: nat): seq<Event>
      reads this`events
    {
      if id in events then events[id] else []
    }

    /** Where the events of an instance have led. */
    ghost function Now(id: nat): Probed
      reads this`led
    {
      if id in led then led[id] else Fresh(id in began)
    }

    ghost predicate Told(id: nat)
      reads this`events, this`led
    {
      Now(id) == Course(Fresh(id in began), EventsOf(id), thresholds)
    }

    ghost predicate AllTold()
      reads this`events, this`led
    {
      forall id: nat :: Told(id)
    }

    ghost predicate InStep(id: nat)
      reads this
    {
      && Lookup(activeFails, id) == Now(id).fails && Lookup(activeSuccess, id) == Now(id).successes
      && (id in rows ==> rows[id].healthy == Now(id).healthy)
    }

    /** Flag and counters of every instance are what its events make them. */
    ghost predicate Valid()
      reads this
    {
      && AllPositive(cfg) && thresholds.fail == cfg.failThreshold && thresholds.recovery == cfg.recoveryThreshold
      && AllTold() && forall id: nat :: InStep(id)
    }

    /** So at any time the stored flag is what the history says, and the counters are the streaks. */
    lemma FlagTellsHistory(id: nat)
      requires Valid()
      ensures id in rows ==> (rows[id].healthy <==> SaysHealthy(EventsOf(id), id in began, thresholds))
      ensures Lookup(activeFails, id) == Trailing(Outcomes(EventsOf(id)), false)
      ensures Lookup(activeSuccess, id) == Trailing(Outcomes(EventsOf(id)), true)
    {
      FlagIsLastSet(id in began, EventsOf(id), thresholds);
      assert InStep(id) && Told(id);
    }

    twostate lemma OnlyOneChanged(id: nat)
      requires old(Valid()) && AllTold() && InStep(id)
      requires forall k: nat :: k != id ==>
                                  && Lookup(activeFails, k) == old(Lookup(activeFails, k))
                                  && Lookup(activeSuccess, k) == old(Lookup(activeSuccess, k))
                                  && Now(k) == old(Now(k))
                                  && (k in rows ==> k in old(rows) && rows[k].healthy == old(rows)[k].healthy)
      ensures Valid()
    {
      forall k: nat ensures InStep(k) {
        if k != id {
          assert old(InStep(k));
        }
      }
    }

    /** The stored flag; for a row that is gone, the one it was listed with. */
    function Flag(id: nat, listed: Row): bool
      reads this
    {
      if id in rows then rows[id].healthy else listed.healthy
    }

    ghost method Log(id: nat, e: Event)
      requires AllTold()
      modifies this`events, this`led
      ensures AllTold() && events == old(events)[id := old(EventsOf(id)) + [e]]
      ensures led == old(led)[id := Happen(old(Now(id)), e, thresholds)]
    {
      assert Told(id);
      CourseStep(Fresh(id in began), EventsOf(id), e, thresholds);
      led := led[id := Happen(Now(id), e, thresholds)];
      events := events[id := EventsOf(id) + [e]];
      forall k: nat ensures Told(k) {
        assert old(Told(k));
      }
    }

    /** A write that fails is ignored. */
    method UpdateHealthy(id: nat, healthy: bool, saved: bool)
      modifies this`rows
      ensures rows == if saved && id in old(rows)
                      then old(rows)[id := old(rows)[id].(healthy := healthy)] else old(rows)
    {
      if saved && id in rows {
        rows := rows[id := rows[id].(healthy := healthy)];
      }
    }

    /** One counter grows, the other restarts. */
    method CountOutcome(id: nat, ok: bool)
      modifies this`activeFails, this`activeSuccess
      ensures activeFails == old(activeFails)[id := if ok then 0 else old(Lookup(activeFails, id)) + 1]
      ensures activeSuccess == old(activeSuccess)[id := if ok then old(Lookup(activeSuccess, id)) + 1 else 0]
    {
      if ok {
        activeFails := activeFails[id := 0];
        activeSuccess := activeSuccess[id := Lookup(activeSuccess, id) + 1];
      } else {
        activeSuccess := activeSuccess[id := 0];
        activeFails := activeFails[id := Lookup(activeFails, id) + 1];
      }
    }

    /** The flag is written when the listed one contradicts a streak that is long enough. */
    method JudgeOutcome(id: nat, listed: Row, ok: bool, saved: bool)
      requires id in activeFails && id in activeSuccess
      modifies this`rows
      ensures var flips := if ok then !listed.healthy && activeSuccess[id] >= cfg.recoveryThreshold
                           else listed.healthy && activeFails[id] >= cfg.failThreshold;
              rows == if flips && saved && id in old(rows)
              then old(rows)[id := old(rows)[id].(healthy := ok)] else old(rows)
    {
      if ok {
        if !listed.healthy && activeSuccess[id] >= cfg.recoveryThreshold {
          UpdateHealthy(id, true, saved);
        }
      } else {
        if listed.healthy && activeFails[id] >= cfg.failThreshold {
          UpdateHealthy(id, false, saved);
        }
      }
    }

    /** The write of a heartbeat timeout or of a consumer report. */
    method MarkUnhealthy(id: nat, saved: bool)
      requires Valid()
      modifies this`rows, this`events, this`led
      ensures Valid()
      ensures rows == if saved && id in old(rows)
                      then old(rows)[id := old(rows)[id].(healthy := false)] else old(rows)
      ensures events == if saved then old(events)[id := old(EventsOf(id)) + [Written(false)]] else old(events)
    {
      if saved {
        Log(id, Written(false));
      }
      UpdateHealthy(id, false, saved);
      assert old(InStep(id));
      OnlyOneChanged(id);
    }

    /** `listed` is the row as the round listed it, however old; its flag, not the stored one, is
        compared. */
    method ProcessActiveResult(id: nat, listed: Row, ok: bool, saved: bool)
      requires Valid()
      modifies this`rows, this`activeFails, this`activeSuccess, this`events, this`led
      ensures Valid()
      ensures var applied := saved && listed.healthy == old(Flag(id, listed));
              events == old(events)[id := old(EventsOf(id)) + [Outcome(ok, applied)]]
      ensures activeFails == old(activeFails)[id := if ok then 0 else old(Lookup(activeFails, id)) + 1]
      ensures activeSuccess == old(activeSuccess)[id := if ok then old(Lookup(activeSuccess, id)) + 1 else 0]
      ensures var flips := if ok then !listed.healthy && activeSuccess[id] >= cfg.recoveryThreshold
                           else listed.healthy && activeFails[id] >= cfg.failThreshold;
              rows == if flips && saved && id in old(rows)
              then old(rows)[id := old(rows)[id].(healthy := ok)] else old(rows)
    {
      assert InStep(id);
      StaleListing(Now(id), listed.healthy, ok, saved, thresholds);
      Log(id, Outcome(ok, saved && listed.healthy == Flag(id, listed)));
      CountOutcome(id, ok);
      JudgeOutcome(id, listed, ok, saved);
      OnlyOneChanged(id);
    }

    /** The body of the loop: the listed row is skipped, timed out, or probed. */
    method CheckInstance(id: nat, listed: Row, services: map<string, Service>, now: int,
                         probe: (nat, Target) -> bool, saved: bool)
      requires Valid()
      modifies this`rows, this`activeFails, this`activeSuccess, this`events, this`led
      ensures Valid() && rows.Keys == old(rows).Keys
      ensures EventsOf(id) == old(EventsOf(id))
                              + Checking(old(Flag(id, listed)), listed, services, now, cfg.removeTimeout,
                                         probe(id, ProbeTarget(listed, services)), saved)
      ensures id in rows ==> SameButFlag(rows[id], old(rows)[id])
      ensures forall k: nat :: k != id ==> EventsOf(k) == old(EventsOf(k)) && (k in rows ==> rows[k] == old(rows)[k])
    {
      if ActivelyChecked(listed, services) {
        if now - listed.lastBeat > cfg.removeTimeout * SECOND {
          if listed.healthy {
            MarkUnhealthy(id, saved);
          }
        } else {
          ProcessActiveResult(id, listed, probe(id, ProbeTarget(listed, services)), saved);
        }
      }
    }

    /** What a round makes happen to an instance, given the rows it listed. */
    function Due(id: nat, listed: map<nat, Row>, services: map<string, Service>, now: nat -> int,
                 probe: (nat, Target) -> bool, saved: nat -> bool): (events: seq<Event>)
      ensures id !in listed ==> events == []
      ensures id in listed ==>
                events == Checking(listed[id].healthy, listed[id], services, now(id), cfg.removeTimeout,
                                   probe(id, ProbeTarget(listed[id], services)), saved(id))
    {
      if id in listed
      then Checking(listed[id].healthy, listed[id], services, now(id), cfg.removeTimeout,
                    probe(id, ProbeTarget(listed[id], services)), saved(id))
      else []
    }

    /** One round treats every instance by itself, in whatever order the rows are listed. The clock
        is read, the probe made and the write done for each instance anew. */
    method RunActiveCheck(services: map<string, Service>, listOk: bool, now: nat -> int,
                          probe: (nat, Target) -> bool, saved: nat -> bool)
      requires Valid()
      modifies this`rows, this`activeFails, this`activeSuccess, this`events, this`led
      ensures Valid() && rows.Keys == old(rows).Keys
      ensures forall id: nat ::
                EventsOf(id) == old(EventsOf(id)) +
                if listOk then Due(id, old(rows), services, now, probe, saved) else []
      ensures forall id :: id in rows ==> SameButFlag(rows[id], old(rows)[id])
    {
      if !listOk {
        return;
      }
      var listed := rows;
      var left := listed.Keys;
      while left != {}
        invariant Valid() && left <= listed.Keys && rows.Keys == listed.Keys
        invariant forall id :: id in left ==> rows[id] == listed[id] && EventsOf(id) == old(EventsOf(id))
        invariant forall id: nat :: id !in left ==>
                                      EventsOf(id) == old(EventsOf(id)) + Due(id, listed, services, now, probe, saved)
        invariant forall id :: id in rows ==> SameButFlag(rows[id], listed[id])
        decreases left
      {
        var id :| id in left;
        left := left - {id};
        CheckInstance(id, listed[id], services, now(id), probe, saved(id));
      }
    }

    /** What naming writes between the checks: a registration makes the row healthy and keeps the
        counters, a heartbeat moves the last beat, a deregistration drops the row. */
    method Register(id: nat, row: Row, now: int)
      requires Valid()
      modifies this`rows, this`events, this`led
      ensures Valid() && rows == old(rows)[id := row.(healthy := true, lastBeat := now)]
      ensures events == old(events)[id := old(EventsOf(id)) + [Written(true)]]
    {
      Log(id, Written(true));
      rows := rows[id := row.(healthy := true, lastBeat := now)];
      assert old(InStep(id));
      OnlyOneChanged(id);
    }

    method Heartbeat(id: nat, now: int)
      requires Valid()
      modifies this`rows
      ensures Valid()
      ensures rows == if id in old(rows) then old(rows)[id := old(rows)[id].(lastBeat := now)] else old(rows)
    {
      if id in rows {
        rows := rows[id := rows[id].(lastBeat := now)];
      }
      assert old(InStep(id));
      OnlyOneChanged(id);
    }

    method Deregister(id: nat)
      requires Valid()
      modifies this`rows
      ensures Valid() && rows == old(rows) - {id}
    {
      rows := rows - {id};
      assert old(InStep(id));
      OnlyOneChanged(id);
    }

    /** The passive settings of a service where they are positive, else the checker's own. */
    function WindowFor(service: string, services: map<string, Service>): (w: int)
      ensures if service in services && services[service].window > 0
              then w == services[service].window * 1_000_000_000 else w == cfg.passiveWindow * 1_000_000_000
    {
      SECOND * if service in services && services[service].window > 0
      then services[service].window else cfg.passiveWindow
    }

    function ThresholdFor(service: string, services: map<string, Service>): (k: int)
      ensures if service in services && services[service].threshold > 0
              then k == services[service].threshold else k == cfg.passiveThreshold
    {
      if service in services && services[service].threshold > 0
      then services[service].threshold else cfg.passiveThreshold
    }

    method PassiveSettings(service: string, services: map<string, Service>) returns (window: int, threshold: int)
      requires AllPositive(cfg)
      ensures window == WindowFor(service, services) > 0 && threshold == ThresholdFor(service, services)
    {
      window, threshold := cfg.passiveWindow * SECOND, cfg.passiveThreshold;
      if service in services {
        if services[service].window > 0 {
          window := services[service].window * SECOND;
        }
        if services[service].threshold > 0 {
          threshold := services[service].threshold;
        }
      }
    }

    /** Records the failure, counts the window of the service, and clears the flag when the count
        reaches the threshold. The active counters stay. A service whose lookup fails is absent. */
    method ReportFailure(id: nat, service: string, services: map<string, Service>, now: int, later: int, saved: bool)
      requires Valid() && tracker.Valid()
      modifies this`rows, this`events, this`led, tracker
      ensures Valid() && tracker.Valid()
      ensures var window := WindowFor(service, services);
              && window > 0
              && tracker.history == old(tracker.history) + [Fail(id, now), Count(id, later, window)]
              && var count := CountAt(tracker.history, |tracker.history| - 1);
              var cleared := saved && count >= ThresholdFor(service, services);
              && rows == (if cleared && id in old(rows)
                          then old(rows)[id := old(rows)[id].(healthy := false)] else old(rows))
              && events == if cleared then old(events)[id := old(EventsOf(id)) + [Written(false)]] else old(events)
    {
      tracker.ReportFailure(id, now);
      var window, threshold := PassiveSettings(service, services);
      var count := tracker.FailureCount(id, later, window);
      if count >= threshold {
        MarkUnhealthy(id, saved);
      }
    }

    /** A success only clears the failures; it restores no flag. */
    method ReportSuccess(id: nat)
      requires Valid() && tracker.Valid()
      modifies tracker
      ensures Valid() && tracker.Valid() && tracker.history == old(tracker.history) + [Succeed(id)]
    {
      tracker.ReportSuccess(id);
    }
  }
}
