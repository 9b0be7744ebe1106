/** Several managers on one node table, in every interleaving of starts, refreshes, heartbeats,
    crashes and restarts. A refresh lists the table, reads the clock, marks the stale peers one by one
    and then shows what it listed; steps of other nodes may come in between, and writes may fail. */
module ClusterProtocol {
  import opened Text
  import opened Cluster

  /** Where the loop of a node stands: between ticks, with a listing made at `at` whose rows are still
      to be judged, with the stale peers still to mark (`whole`: no mark has failed), or before its
      heartbeat. */
  datatype Phase =
    | Idle
    | Listed(rows: Table, at: int)
    | Marking(rows: Table, at: int, stale: set<string>, whole: bool)
    | Beating

  /** A running node: its cached rows and when they were listed, when it started, when its last whole
      refresh listed, and its last heartbeat. */
  datatype Node = Node(view: Table, viewAt: int, startedAt: int, lastRefresh: int, lastBeat: int, phase: Phase)

  datatype State = State(now: int, table: Table, nodes: map<string, Node>)

  /** `members` are the configured ones whose registration succeeds. */
  datatype Step =
    | Advance(to: int)
    | Start(self: string, members: set<string>)
    | List(self: string, ok: bool)
    | Read(self: string)
    | Mark(self: string, peer: string, ok: bool)
    | Show(self: string)
    | Beat(self: string, ok: bool)
    | Crash(self: string)

  predicate Busy(n: Node) {
    n.phase.Listed? || n.phase.Marking?
  }

  predicate Possible(s: State, step: Step) {
    match step
    case Advance(to) => s.now <= to
    case Start(a, _) => a !in s.nodes
    case List(a, _) => a in s.nodes && s.nodes[a].phase.Idle?
    case Read(a) => a in s.nodes && s.nodes[a].phase.Listed?
    case Mark(a, b, _) => a in s.nodes && s.nodes[a].phase.Marking? && b in s.nodes[a].phase.stale
    case Show(a) => a in s.nodes && s.nodes[a].phase.Marking? && s.nodes[a].phase.stale == {}
    case Beat(a, _) => a in s.nodes && s.nodes[a].phase.Beating?
    case Crash(a) => a in s.nodes
  }

  /** The listing of a node's last whole refresh and its last heartbeat are at most `p` old, and a
      refresh takes at most `d`. */
  predicate InTime(n: Node, now: int, p: int, d: int) {
    now <= n.lastRefresh + p && now <= n.lastBeat + p && (Busy(n) ==> now <= n.phase.at + d)
  }

  /** Time passes only as far as every running node stays in time. */
  ghost predicate Enabled(s: State, step: Step, p: int, d: int) {
    Possible(s, step) && (step.Advance? ==> forall a :: a in s.nodes ==> InTime(s.nodes[a], step.to, p, d))
  }

  function StalePeers(rows: Table, self: string, now: int): set<string> {
    set a | a in rows && a != self && Stale(rows[a], now)
  }

  function Apply(s: State, step: Step): State
    requires Possible(s, step)
  {
    match step
    case Advance(to) => s.(now := to)
    case Start(a, members) =>
      s.(table := Registered(s.table, {a} + members, s.now),
      nodes := s.nodes[a := Node(map[], s.now, s.now, s.now, s.now, Idle)])
    case List(a, ok) => s.(nodes := s.nodes[a := s.nodes[a].(phase := if ok then Listed(s.table, s.now) else Beating)])
    case Read(a) =>
      var ph := s.nodes[a].phase;
      s.(nodes := s.nodes[a := s.nodes[a].(phase := Marking(ph.rows, ph.at, StalePeers(ph.rows, a, s.now), true))])
    case Mark(a, b, ok) =>
      var ph := s.nodes[a].phase;
      s.(table := if ok && b in s.table then s.table[b := s.table[b].(state := Down)] else s.table,
      nodes := s.nodes[a := s.nodes[a].(phase := ph.(stale := ph.stale - {b}, whole := ph.whole && ok))])
    case Show(a) =>
      var n := s.nodes[a];
      s.(nodes := s.nodes[a := n.(view := n.phase.rows, viewAt := n.phase.at,
      lastRefresh := if n.phase.whole then n.phase.at else n.lastRefresh, phase := Beating)])
    case Beat(a, ok) =>
      s.(table := if ok then s.table[a := Row(Up, s.now)] else s.table,
      nodes := s.nodes[a := s.nodes[a].(lastBeat := if ok then s.now else s.nodes[a].lastBeat, phase := Idle)])
    case Crash(a) => s.(nodes := s.nodes - {a})
  }

  /** No node runs yet; the table may hold any rows of the past. */
  ghost predicate Init(s: State) {
    s.nodes == map[] && forall a :: a in s.table ==> s.table[a].lastBeat <= s.now
  }

  /** `t` is reached from `s` by the steps, each of them enabled. */
  ghost predicate Run(s: State, steps: seq<Step>, t: State, p: int, d: int)
    decreases |steps|
  {
    if steps == [] then s == t
    else Enabled(s, steps[0], p, d) && Run(Apply(s, steps[0]), steps[1..], t, p, d)
  }

  /** The row of a node that does not run. */
  ghost predicate Dead(s: State, b: string) {
    b in s.table && b !in s.nodes
  }

  // ---------- what the steps do ----------

  /** A start is possible exactly for a node that does not run. It registers the node and the given
      members as UP, touches no other row, and the node begins with an empty cache. */
  lemma StartWrites(s: State, a: string, members: set<string>)
    ensures Possible(s, Start(a, members)) <==> a !in s.nodes
    ensures a !in s.nodes ==>
              var t := Apply(s, Start(a, members));
              && (forall b :: b == a || b in members ==> b in t.table && t.table[b] == Row(Up, s.now))
              && (forall b :: b != a && b !in members ==>
                                (b in t.table <==> b in s.table) && (b in s.table ==> t.table[b] == s.table[b]))
              && t.nodes == s.nodes[a := Node(map[], s.now, s.now, s.now, s.now, Idle)]
  {
  }

  /** That is what `Manager.Start` writes when its own registration succeeds. */
  lemma StartIsManagers(s: State, a: string, members: seq<string>, dbOk: nat -> bool)
    requires dbOk(0) && a !in s.nodes
    ensures var written := Written(a, members, dbOk);
            Apply(s, Start(a, written)).table == Registered(s.table, written, s.now)
    ensures forall b :: b in Written(a, members, dbOk) <==>
                        b == a || exists i: nat :: i < |members| && members[i] == b && dbOk(i + 1)
  {
    var w := Written(a, members, dbOk);
    assert {a} + w == w;
  }

  /** The loop of a running node goes in order: list, read the clock, mark each stale peer, show, beat;
      only a listing that failed goes straight to the heartbeat. */
  lemma LoopInOrder(s: State, a: string)
    requires a in s.nodes
    ensures var ph := s.nodes[a].phase;
            && (forall ok :: Possible(s, List(a, ok)) <==> ph.Idle?)
            && (Possible(s, Read(a)) <==> ph.Listed?)
            && (forall b, ok :: Possible(s, Mark(a, b, ok)) <==> ph.Marking? && b in ph.stale)
            && (Possible(s, Show(a)) <==> ph.Marking? && ph.stale == {})
            && (forall ok :: Possible(s, Beat(a, ok)) <==> ph.Beating?)
            && Possible(s, Crash(a))
    ensures s.nodes[a].phase.Idle? ==>
              && Apply(s, List(a, true)).nodes[a].phase == Listed(s.table, s.now)
              && Apply(s, List(a, false)).nodes[a].phase == Beating
    ensures s.nodes[a].phase.Listed? ==>
              var ph := s.nodes[a].phase;
              var marking := Apply(s, Read(a)).nodes[a].phase;
              && marking.Marking? && marking.rows == ph.rows && marking.at == ph.at && marking.whole
              && forall b :: b in marking.stale <==>
                             && b in ph.rows && b != a && ph.rows[b].state.Up?
                             && s.now - ph.rows[b].lastBeat > 15_000
  {
  }

  /** Nothing but time is held back: every other step is enabled when it is possible, and time may pass
      up to the first deadline of a running node. So runs go on with any of them. */
  lemma WhenEnabled(s: State, steps: seq<Step>, t: State, step: Step, p: int, d: int)
    ensures !step.Advance? ==> (Enabled(t, step, p, d) <==> Possible(t, step))
    ensures step.Advance? ==>
              (Enabled(t, step, p, d) <==>
               && t.now <= step.to
               && forall a :: a in t.nodes ==>
                                var n := t.nodes[a];
                                && step.to <= n.lastRefresh + p && step.to <= n.lastBeat + p
                                && (n.phase.Listed? || n.phase.Marking? ==> step.to <= n.phase.at + d))
    ensures Run(s, steps, t, p, d) && Enabled(t, step, p, d) ==> Run(s, steps + [step], Apply(t, step), p, d)
  {
    if Run(s, steps, t, p, d) && Enabled(t, step, p, d) {
      Extend(s, steps, t, step, p, d);
    }
  }

  /** A heartbeat that succeeds writes the own row, as `Manager.UpdateSelfHeartbeat` does. */
  lemma BeatWrites(s: State, a: string, ok: bool)
    requires a in s.nodes && s.nodes[a].phase.Beating?
    ensures var t := Apply(s, Beat(a, ok));
            && t.table == (if ok then s.table[a := Row(Up, s.now)] else s.table)
            && t.nodes[a].phase.Idle? && t.nodes[a].view == s.nodes[a].view
            && t.nodes[a].lastBeat == if ok then s.now else s.nodes[a].lastBeat
  {
  }

  /** Every step leaves all other nodes alone; only a start, a mark and a heartbeat that succeed write
      the table; and only the end of a refresh or a start changes the own cache. */
  lemma StepIsLocal(s: State, step: Step)
    requires Possible(s, step)
    ensures var t := Apply(s, step);
            && (step.Advance? ==> t == s.(now := step.to))
            && (!step.Advance? ==> t.now == s.now && forall b :: b != step.self ==>
                                                                   (b in t.nodes <==> b in s.nodes)
                                                                   && (b in s.nodes ==> t.nodes[b] == s.nodes[b]))
            && (!step.Start? && !(step.Mark? && step.ok) && !(step.Beat? && step.ok) ==> t.table == s.table)
            && (!step.Advance? && !step.Start? && !step.Show? && !step.Crash? ==>
                  t.nodes[step.self].view == s.nodes[step.self].view)
            && (step.Crash? ==> step.self !in t.nodes)
            && (step.Mark? && step.ok ==>
                  t.table == if step.peer in s.table
                  then s.table[step.peer := s.table[step.peer].(state := Down)] else s.table)
  {
  }

  // ---------- the invariant of all runs ----------

  /** Periods for which the protocol works: a beat and a refresh together fit into the timeout. */
  predicate Timely(p: int, d: int) {
    0 < p && 0 <= d && p + d <= TIMEOUT
  }

  /** A running node has not missed its deadlines, and is UP in the table unless its last beat falls
      into the time in which a refresh from before its start may still mark it. */
  ghost predicate Alive(s: State, a: string, p: int, d: int)
    requires a in s.nodes
  {
    var n := s.nodes[a];
    && a in s.table && n.lastBeat <= s.table[a].lastBeat <= s.now
    && (s.table[a].state.Up? || n.lastBeat <= n.startedAt + d)
    && s.now - p <= n.lastBeat && s.now - p <= n.lastRefresh
    && n.startedAt <= n.lastRefresh <= n.viewAt <= s.now
    && n.view.Keys <= s.table.Keys
    && (Busy(n) ==> n.viewAt <= n.phase.at <= s.now <= n.phase.at + d && n.phase.rows.Keys <= s.table.Keys)
  }

  /** Rows listed long enough after a peer started show it UP. */
  ghost predicate ShowsPeer(rows: Table, at: int, b: string, startedAt: int, p: int, d: int) {
    at > startedAt + p + d ==> b in rows && rows[b].state.Up?
  }

  /** What node `a` knows of the running node `b`. In particular `a` is never about to mark `b` unless
      `b` started after `a` had listed the table. */
  ghost predicate Sees(s: State, a: string, b: string, p: int, d: int)
    requires a in s.nodes && b in s.nodes
  {
    var n, since := s.nodes[a], s.nodes[b].startedAt;
    && (n.viewAt > n.startedAt ==> ShowsPeer(n.view, n.viewAt, b, since, p, d))
    && (Busy(n) ==> ShowsPeer(n.phase.rows, n.phase.at, b, since, p, d))
    && (n.phase.Listed? && since < n.phase.at ==>
          b in n.phase.rows && n.phase.at - p <= n.phase.rows[b].lastBeat)
    && (n.phase.Marking? && b in n.phase.stale ==> n.phase.at <= since)
  }

  /** A row that was not written since the listing of `a` is listed with the same beat. */
  ghost predicate Kept(s: State, a: string, b: string)
    requires a in s.nodes && b in s.table
  {
    var ph, row := s.nodes[a].phase, s.table[b];
    Busy(s.nodes[a]) && row.lastBeat < ph.at ==>
      b in ph.rows && ph.rows[b].lastBeat == row.lastBeat && (row.state.Up? ==> ph.rows[b].state.Up?)
  }

  /** A node whose whole refresh listed late enough after a peer's last beat has marked it, and what
      it lists a period later shows that. */
  ghost predicate Detects(s: State, a: string, b: string, p: int)
    requires a in s.nodes && b in s.table
  {
    var n, due := s.nodes[a], s.table[b].lastBeat + TIMEOUT;
    && (n.lastRefresh > n.startedAt && n.lastRefresh > due ==> s.table[b].state.Down?)
    && (n.viewAt > n.startedAt + p && n.viewAt > due + p ==> b in n.view && n.view[b].state.Down?)
    && (Busy(n) && n.phase.at > n.startedAt + p && n.phase.at > due + p ==>
          b in n.phase.rows && n.phase.rows[b].state.Down?)
    && (n.phase.Marking? && n.phase.whole && n.phase.at > due ==> b in n.phase.stale || s.table[b].state.Down?)
  }

  ghost predicate Inv(s: State, p: int, d: int) {
    && (forall b :: b in s.table ==> s.table[b].lastBeat <= s.now)
    && (forall a :: a in s.nodes ==> Alive(s, a, p, d))
    && (forall a, b :: a in s.nodes && b in s.nodes ==> Sees(s, a, b, p, d))
    && (forall a, b :: a in s.nodes && b in s.table ==> Kept(s, a, b))
    && (forall a, b :: a in s.nodes && Dead(s, b) ==> Detects(s, a, b, p))
  }

  /** Inv, taken apart for one pair of addresses. */
  ghost predicate PairOk(s: State, a: string, b: string, p: int, d: int)
    requires a in s.nodes
  {
    && Alive(s, a, p, d)
    && (b in s.nodes ==> Alive(s, b, p, d) && Sees(s, a, b, p, d))
    && (b in s.table ==> s.table[b].lastBeat <= s.now && Kept(s, a, b))
    && (Dead(s, b) ==> Detects(s, a, b, p))
  }

  lemma AllPairs(s: State, p: int, d: int)
    requires forall b :: b in s.table ==> s.table[b].lastBeat <= s.now
    requires forall a, b :: a in s.nodes ==> PairOk(s, a, b, p, d)
    ensures Inv(s, p, d)
  {
    forall a | a in s.nodes ensures Alive(s, a, p, d) {
      assert PairOk(s, a, a, p, d);
    }
    forall a, b | a in s.nodes && b in s.nodes ensures Sees(s, a, b, p, d) {
      assert PairOk(s, a, b, p, d);
    }
    forall a, b | a in s.nodes && b in s.table ensures Kept(s, a, b) {
      assert PairOk(s, a, b, p, d);
    }
    forall a, b | a in s.nodes && Dead(s, b) ensures Detects(s, a, b, p) {
      assert PairOk(s, a, b, p, d);
    }
  }

  lemma AdvancePair(s: State, to: int, a: string, b: string, p: int, d: int)
    requires Timely(p, d) && Enabled(s, Advance(to), p, d) && a in Apply(s, Advance(to)).nodes
    requires PairOk(s, a, b, p, d)
    ensures PairOk(Apply(s, Advance(to)), a, b, p, d)
  {
  }

  lemma StartPair(s: State, self: string, members: set<string>, a: string, b: string, p: int, d: int)
    requires Timely(p, d) && Enabled(s, Start(self, members), p, d) && a in Apply(s, Start(self, members)).nodes
    requires a != self ==> PairOk(s, a, b, p, d)
    requires b in s.nodes ==> Alive(s, b, p, d)
    requires forall c :: c in s.table ==> s.table[c].lastBeat <= s.now
    ensures PairOk(Apply(s, Start(self, members)), a, b, p, d)
  {
  }

  lemma ListPair(s: State, self: string, ok: bool, a: string, b: string, p: int, d: int)
    requires Timely(p, d) && Enabled(s, List(self, ok), p, d) && a in Apply(s, List(self, ok)).nodes
    requires PairOk(s, a, b, p, d)
    ensures PairOk(Apply(s, List(self, ok)), a, b, p, d)
  {
  }

  lemma ReadPair(s: State, self: string, a: string, b: string, p: int, d: int)
    requires Timely(p, d) && Enabled(s, Read(self), p, d) && a in Apply(s, Read(self)).nodes
    requires PairOk(s, a, b, p, d)
    ensures PairOk(Apply(s, Read(self)), a, b, p, d)
  {
  }

  lemma MarkAlive(s: State, self: string, peer: string, ok: bool, a: string, p: int, d: int)
    requires Possible(s, Mark(self, peer, ok)) && a in s.nodes
    requires Alive(s, a, p, d) && Alive(s, self, p, d) && Sees(s, self, a, p, d)
    ensures Alive(Apply(s, Mark(self, peer, ok)), a, p, d)
  {
  }

  lemma MarkPair(s: State, self: string, peer: string, ok: bool, a: string, b: string, p: int, d: int)
    requires Possible(s, Mark(self, peer, ok)) && a in s.nodes && PairOk(s, a, b, p, d)
    requires Alive(Apply(s, Mark(self, peer, ok)), a, p, d)
    requires b in s.nodes ==> Alive(Apply(s, Mark(self, peer, ok)), b, p, d)
    ensures PairOk(Apply(s, Mark(self, peer, ok)), a, b, p, d)
  {
  }

  lemma ShowPair(s: State, self: string, a: string, b: string, p: int, d: int)
    requires Timely(p, d) && Enabled(s, Show(self), p, d) && a in Apply(s, Show(self)).nodes
    requires PairOk(s, a, b, p, d)
    ensures PairOk(Apply(s, Show(self)), a, b, p, d)
  {
  }

  lemma BeatPair(s: State, self: string, ok: bool, a: string, b: string, p: int, d: int)
    requires Timely(p, d) && Enabled(s, Beat(self, ok), p, d) && a in Apply(s, Beat(self, ok)).nodes
    requires PairOk(s, a, b, p, d)
    ensures PairOk(Apply(s, Beat(self, ok)), a, b, p, d)
  {
  }

  lemma CrashPair(s: State, self: string, a: string, b: string, p: int, d: int)
    requires Timely(p, d) && Enabled(s, Crash(self), p, d) && a in Apply(s, Crash(self)).nodes
    requires PairOk(s, a, b, p, d) && Alive(s, self, p, d)
    ensures PairOk(Apply(s, Crash(self)), a, b, p, d)
  {
  }

  lemma PairStep(s: State, step: Step, a: string, b: string, p: int, d: int)
    requires Timely(p, d) && Inv(s, p, d) && Enabled(s, step, p, d)
    requires a in Apply(s, step).nodes
    ensures PairOk(Apply(s, step), a, b, p, d)
  {
    assert a in s.nodes ==> PairOk(s, a, b, p, d);
    match step
    case Advance(to) => AdvancePair(s, to, a, b, p, d);
    case Start(self, members) => StartPair(s, self, members, a, b, p, d);
    case List(self, ok) => ListPair(s, self, ok, a, b, p, d);
    case Read(self) => ReadPair(s, self, a, b, p, d);
    case Mark(self, peer, ok) =>
      MarkAlive(s, self, peer, ok, a, p, d);
      if b in s.nodes {
        MarkAlive(s, self, peer, ok, b, p, d);
      }
      MarkPair(s, self, peer, ok, a, b, p, d);
    case Show(self) => ShowPair(s, self, a, b, p, d);
    case Beat(self, ok) => BeatPair(s, self, ok, a, b, p, d);
    case Crash(self) => CrashPair(s, self, a, b, p, d);
  }

  /** Every step keeps the invariant. */
  lemma StepKeeps(s: State, step: Step, p: int, d: int)
    requires Timely(p, d) && Inv(s, p, d) && Enabled(s, step, p, d)
    ensures Inv(Apply(s, step), p, d)
  {
    var t := Apply(s, step);
    forall a, b | a in t.nodes ensures PairOk(t, a, b, p, d) {
      PairStep(s, step, a, b, p, d);
    }
    AllPairs(t, p, d);
  }

  lemma {:induction false} RunKeeps(s: State, steps: seq<Step>, t: State, p: int, d: int)
    requires Timely(p, d) && Inv(s, p, d) && Run(s, steps, t, p, d)
    ensures Inv(t, p, d)
    decreases |steps|
  {
    if steps != [] {
      StepKeeps(s, steps[0], p, d);
      RunKeeps(Apply(s, steps[0]), steps[1..], t, p, d);
    }
  }

  // ---------- the main results ----------

  /** Node `a` has run for longer than `span`. */
  ghost predicate RunsFor(t: State, a: string, span: int) {
    a in t.nodes && t.now > t.nodes[a].startedAt + span
  }

  /** The row of a stopped peer is older than the timeout and two periods. */
  ghost predicate LongDead(t: State, b: string, p: int) {
    Dead(t, b) && t.now > t.table[b].lastBeat + TIMEOUT + 2 * p
  }

  ghost predicate ShownUp(t: State, a: string, b: string)
    requires a in t.nodes
  {
    b in t.nodes[a].view && t.nodes[a].view[b].state.Up?
  }

  ghost predicate ShownDown(t: State, a: string, b: string)
    requires a in t.nodes
  {
    b in t.nodes[a].view && t.nodes[a].view[b].state.Down?
  }

  /** Node `a` is about to write that `b` is DOWN. */
  ghost predicate AboutToMark(t: State, a: string, b: string)
    requires a in t.nodes
  {
    t.nodes[a].phase.Marking? && b in t.nodes[a].phase.stale
  }

  /** A running node is only ever marked by a refresh that listed the table no later than it started;
      so it is UP in the table after `p + d`, and in the caches a period later. A peer whose row is
      more than 15 s and two periods old is DOWN in the table and in the caches. */
  lemma BoundedDetection(s: State, steps: seq<Step>, t: State, p: int, d: int)
    requires Timely(p, d) && Init(s) && Run(s, steps, t, p, d)
    ensures forall a, b :: a in t.nodes && b in t.nodes && AboutToMark(t, a, b) ==>
                             t.nodes[a].phase.at <= t.nodes[b].startedAt
    ensures forall b :: RunsFor(t, b, p + d) ==> b in t.table && t.table[b].state.Up?
    ensures forall a, b :: RunsFor(t, a, p) && RunsFor(t, b, 2 * p + d) ==> ShownUp(t, a, b)
    ensures forall a, b :: RunsFor(t, a, 2 * p) && LongDead(t, b, p) ==>
                             t.table[b].state.Down? && ShownDown(t, a, b)
  {
    RunKeeps(s, steps, t, p, d);
    forall a, b | a in t.nodes && b in t.nodes && AboutToMark(t, a, b)
      ensures t.nodes[a].phase.at <= t.nodes[b].startedAt
    {
      assert Sees(t, a, b, p, d);
    }
    forall b | RunsFor(t, b, p + d) ensures b in t.table && t.table[b].state.Up? {
      assert Alive(t, b, p, d);
    }
    forall a, b | RunsFor(t, a, p) && RunsFor(t, b, 2 * p + d) ensures ShownUp(t, a, b) {
      assert Alive(t, a, p, d) && Sees(t, a, b, p, d);
    }
    forall a, b | RunsFor(t, a, 2 * p) && LongDead(t, b, p)
      ensures t.table[b].state.Down? && ShownDown(t, a, b)
    {
      assert Alive(t, a, p, d) && Detects(t, a, b, p);
    }
  }

  /** What node `a` answers to `IsLeader`. */
  ghost predicate LeadsNow(t: State, a: string)
    requires a in t.nodes
  {
    Leads(a, UpKeys(t.nodes[a].view))
  }

  /** At no time, whatever has just crashed or restarted, do two nodes lead that have both run for
      more than two periods and a refresh. */
  lemma NeverTwoLeaders(s: State, steps: seq<Step>, t: State, p: int, d: int, a: string, b: string)
    requires Timely(p, d) && Init(s) && Run(s, steps, t, p, d)
    requires RunsFor(t, a, 2 * p + d) && RunsFor(t, b, 2 * p + d) && LeadsNow(t, a) && LeadsNow(t, b)
    ensures a == b
  {
    BoundedDetection(s, steps, t, p, d);
    assert RunsFor(t, a, p) && RunsFor(t, b, p);
    assert ShownUp(t, a, b) && ShownUp(t, b, a);
    assert b in UpKeys(t.nodes[a].view) && a in UpKeys(t.nodes[b].view);
    AtMostAntisymmetric(a, b);
  }

  /** Every running node has run long enough, and every stopped peer has long been dead. */
  ghost predicate Settled(t: State, p: int, d: int) {
    (forall a :: a in t.nodes ==> RunsFor(t, a, 2 * p + d)) && forall b :: Dead(t, b) ==> LongDead(t, b, p)
  }

  lemma CachesAgree(t: State, a: string, p: int, d: int)
    requires Timely(p, d) && Inv(t, p, d) && Settled(t, p, d) && a in t.nodes
    ensures UpKeys(t.nodes[a].view) == t.nodes.Keys
  {
    assert Alive(t, a, p, d) && RunsFor(t, a, 2 * p + d);
    forall b | b in t.nodes ensures ShownUp(t, a, b) {
      assert Sees(t, a, b, p, d) && RunsFor(t, b, 2 * p + d);
    }
    forall b | Dead(t, b) ensures ShownDown(t, a, b) {
      assert Detects(t, a, b, p) && LongDead(t, b, p);
    }
    assert forall b :: b in t.nodes[a].view ==> b in t.nodes || Dead(t, b);
  }

  /** From then on all caches agree on who is UP: exactly the running nodes. So the least running
      address, and no other running node, leads, and each key in range has one owner among them. */
  lemma Agreement(s: State, steps: seq<Step>, t: State, p: int, d: int)
    requires Timely(p, d) && Init(s) && Run(s, steps, t, p, d)
    requires Settled(t, p, d) && t.nodes.Keys != {}
    ensures forall a :: a in t.nodes ==> UpKeys(t.nodes[a].view) == t.nodes.Keys
    ensures forall a :: a in t.nodes ==> (LeadsNow(t, a) <==> IsLeast(a, t.nodes.Keys))
    ensures exists a :: a in t.nodes && LeadsNow(t, a)
    ensures forall key :: !OutOfRange(key, |t.nodes.Keys|) ==>
                            exists a :: a in t.nodes && Owns(a, t.nodes.Keys, key)
                                        && forall b :: b in t.nodes && Owns(b, t.nodes.Keys, key) ==> b == a
  {
    RunKeeps(s, steps, t, p, d);
    forall a | a in t.nodes ensures UpKeys(t.nodes[a].view) == t.nodes.Keys {
      CachesAgree(t, a, p, d);
    }
    OneLeader(t.nodes.Keys);
    var m := LeastExists(t.nodes.Keys);
    assert m in t.nodes && LeadsNow(t, m);
    forall key | !OutOfRange(key, |t.nodes.Keys|)
      ensures exists a :: a in t.nodes && Owns(a, t.nodes.Keys, key)
                          && forall b :: b in t.nodes && Owns(b, t.nodes.Keys, key) ==> b == a
    {
      OneOwner(t.nodes.Keys, key);
      var a :| Owns(a, t.nodes.Keys, key);
    }
  }

  // ---------- a refresh without interruption ----------

  lemma {:induction false} Extend(s: State, steps: seq<Step>, t: State, step: Step, p: int, d: int)
    requires Run(s, steps, t, p, d) && Enabled(t, step, p, d)
    ensures Run(s, steps + [step], Apply(t, step), p, d)
    decreases |steps|
  {
    if steps != [] {
      Extend(Apply(s, steps[0]), steps[1..], t, step, p, d);
      assert (steps + [step])[1..] == steps[1..] + [step];
    } else {
      assert [] + [step] == [step] && [step][1..] == [];
    }
  }

  function Marked(table: Table, marks: set<string>): Table {
    map b | b in table :: if b in marks then table[b].(state := Down) else table[b]
  }

  /** Node `a` has made all its marks, of which those in `reached` succeeded. */
  function MarksMade(t: State, a: string, reached: set<string>): State
    requires a in t.nodes && t.nodes[a].phase.Marking?
  {
    var ph := t.nodes[a].phase;
    t.(table := Marked(t.table, ph.stale * reached),
    nodes := t.nodes[a := t.nodes[a].(phase := ph.(stale := {}, whole := ph.whole && ph.stale <= reached))])
  }

  lemma OneMark(t: State, a: string, peer: string, reached: set<string>)
    requires a in t.nodes && t.nodes[a].phase.Marking? && peer in t.nodes[a].phase.stale
    ensures MarksMade(Apply(t, Mark(a, peer, peer in reached)), a, reached) == MarksMade(t, a, reached)
  {
    var u := Apply(t, Mark(a, peer, peer in reached));
    var ph := t.nodes[a].phase;
    assert ph.stale <= reached <==> ph.stale - {peer} <= reached && peer in reached;
    assert MarksMade(u, a, reached).table == MarksMade(t, a, reached).table;
    assert MarksMade(u, a, reached).nodes == MarksMade(t, a, reached).nodes;
  }

  lemma {:induction false} MarkAll(s: State, steps: seq<Step>, t: State, a: string, reached: set<string>,
                                   p: int, d: int)
    returns (longer: seq<Step>)
    requires Run(s, steps, t, p, d) && a in t.nodes && t.nodes[a].phase.Marking?
    ensures Run(s, longer, MarksMade(t, a, reached), p, d)
    decreases t.nodes[a].phase.stale
  {
    if t.nodes[a].phase.stale == {} {
      longer := steps;
      assert MarksMade(t, a, reached).table == t.table;
      assert MarksMade(t, a, reached).nodes == t.nodes;
    } else {
      var peer :| peer in t.nodes[a].phase.stale;
      var step := Mark(a, peer, peer in reached);
      Extend(s, steps, t, step, p, d);
      OneMark(t, a, peer, reached);
      longer := MarkAll(s, steps + [step], Apply(t, step), a, reached, p, d);
    }
  }

  /** What a refresh does to table and cache when nothing comes in between. */
  function Refreshed(t: State, a: string, reached: set<string>): State
    requires a in t.nodes
  {
    var whole := StalePeers(t.table, a, t.now) <= reached;
    t.(table := MarkAmong(t.table, reached, a, t.now),
    nodes := t.nodes[a := t.nodes[a].(view := t.table, viewAt := t.now,
    lastRefresh := if whole then t.now else t.nodes[a].lastRefresh, phase := Beating)])
  }

  lemma RefreshSteps(t: State, a: string, reached: set<string>)
    requires a in t.nodes && t.nodes[a].phase.Idle?
    ensures var marked := MarksMade(Apply(Apply(t, List(a, true)), Read(a)), a, reached);
            Possible(marked, Show(a)) && Apply(marked, Show(a)) == Refreshed(t, a, reached)
  {
    var u := Apply(MarksMade(Apply(Apply(t, List(a, true)), Read(a)), a, reached), Show(a));
    assert u.table == Refreshed(t, a, reached).table;
    assert u.nodes == Refreshed(t, a, reached).nodes;
  }

  /** The manager's refresh is a run of the protocol: listed, judged, marked and shown at one instant. */
  lemma RefreshRuns(s: State, steps: seq<Step>, t: State, a: string, reached: set<string>, p: int, d: int)
    returns (longer: seq<Step>)
    requires Run(s, steps, t, p, d) && a in t.nodes && t.nodes[a].phase.Idle?
    ensures Run(s, longer, Refreshed(t, a, reached), p, d)
  {
    var t1 := Apply(t, List(a, true));
    var t2 := Apply(t1, Read(a));
    var t3 := MarksMade(t2, a, reached);
    RefreshSteps(t, a, reached);
    Extend(s, steps, t, List(a, true), p, d);
    Extend(s, steps + [List(a, true)], t1, Read(a), p, d);
    var marked := MarkAll(s, steps + [List(a, true)] + [Read(a)], t2, a, reached, p, d);
    Extend(s, marked, t3, Show(a), p, d);
    longer := marked + [Show(a)];
  }

  /** The state after a whole tick of `a` at time `to`. */
  function Ticked(t: State, a: string, to: int): State
    requires a in t.nodes
  {
    State(to, MarkStale(t.table, a, to)[a := Row(Up, to)],
          t.nodes[a := Node(t.table, to, t.nodes[a].startedAt, to, to, Idle)])
  }

  lemma Tick(s: State, steps: seq<Step>, t: State, a: string, to: int, p: int, d: int) returns (longer: seq<Step>)
    requires Run(s, steps, t, p, d) && Enabled(t, Advance(to), p, d) && a in t.nodes && t.nodes[a].phase.Idle?
    ensures Run(s, longer, Ticked(t, a, to), p, d)
  {
    var t1 := Apply(t, Advance(to));
    Extend(s, steps, t, Advance(to), p, d);
    var refreshed := RefreshRuns(s, steps + [Advance(to)], t1, a, t1.table.Keys, p, d);
    var t2 := Refreshed(t1, a, t1.table.Keys);
    Extend(s, refreshed, t2, Beat(a, true), p, d);
    longer := refreshed + [Beat(a, true)];
    var t3 := Apply(t2, Beat(a, true));
    assert t3.nodes == Ticked(t, a, to).nodes;
  }

  // ---------- the bounds are exact: two nodes ----------

  /** A state with two running nodes. */
  function Two(now: int, ra: Row, rb: Row, na: Node, nb: Node): State {
    State(now, map["a" := ra, "b" := rb], map["a" := na, "b" := nb])
  }

  function Resting(view: Table, at: int): Node {
    Node(view, at, 0, at, at, Idle)
  }

  function Judged(row: Row, now: int): Row {
    if Stale(row, now) then row.(state := Down) else row
  }

  lemma TableTicked(ra: Row, rb: Row, to: int)
    ensures MarkStale(map["a" := ra, "b" := rb], "a", to)["a" := Row(Up, to)] ==
            map["a" := Row(Up, to), "b" := Judged(rb, to)]
    ensures MarkStale(map["a" := ra, "b" := rb], "b", to)["b" := Row(Up, to)] ==
            map["a" := Judged(ra, to), "b" := Row(Up, to)]
  {
  }

  lemma NodesTicked(na: Node, nb: Node, n: Node)
    ensures map["a" := na, "b" := nb]["a" := n] == map["a" := n, "b" := nb]
    ensures map["a" := na, "b" := nb]["b" := n] == map["a" := na, "b" := n]
  {
  }

  lemma TickA(s: State, steps: seq<Step>, now: int, ra: Row, rb: Row, na: Node, nb: Node, to: int, p: int, d: int)
    returns (longer: seq<Step>)
    requires Run(s, steps, Two(now, ra, rb, na, nb), p, d) && na.startedAt == 0 && na.phase.Idle?
    requires now <= to && InTime(na, to, p, d) && InTime(nb, to, p, d)
    ensures Run(s, longer, Two(to, Row(Up, to), Judged(rb, to), Resting(map["a" := ra, "b" := rb], to), nb), p, d)
  {
    var t := Two(now, ra, rb, na, nb);
    longer := Tick(s, steps, t, "a", to, p, d);
    TableTicked(ra, rb, to);
    NodesTicked(na, nb, Resting(map["a" := ra, "b" := rb], to));
  }

  lemma TickB(s: State, steps: seq<Step>, now: int, ra: Row, rb: Row, na: Node, nb: Node, to: int, p: int, d: int)
    returns (longer: seq<Step>)
    requires Run(s, steps, Two(now, ra, rb, na, nb), p, d) && nb.startedAt == 0 && nb.phase.Idle?
    requires now <= to && InTime(na, to, p, d) && InTime(nb, to, p, d)
    ensures Run(s, longer, Two(to, Judged(ra, to), Row(Up, to), na, Resting(map["a" := ra, "b" := rb], to)), p, d)
  {
    var t := Two(now, ra, rb, na, nb);
    longer := Tick(s, steps, t, "b", to, p, d);
    TableTicked(ra, rb, to);
    NodesTicked(na, nb, Resting(map["a" := ra, "b" := rb], to));
  }

  lemma Pass(s: State, steps: seq<Step>, now: int, ra: Row, rb: Row, na: Node, nb: Node, to: int, p: int, d: int)
    requires Run(s, steps, Two(now, ra, rb, na, nb), p, d)
    requires now <= to && InTime(na, to, p, d) && InTime(nb, to, p, d)
    ensures Run(s, steps + [Advance(to)], Two(to, ra, rb, na, nb), p, d)
  {
    Extend(s, steps, Two(now, ra, rb, na, nb), Advance(to), p, d);
  }

  /** The row of a member that does not run. */
  function Leftover(a: string, beat: int): State {
    State(0, map[a := Row(Up, beat)], map[])
  }

  const OLD := Row(Up, -TIMEOUT - 1)

  /** Node "b" is about to mark the row that "a" left behind. */
  function Marker(): Node {
    Node(map[], 0, 0, 0, 0, Marking(map["a" := OLD, "b" := Row(Up, 0)], 0, {"a"}, true))
  }

  lemma MarkerReached(p: int, d: int) returns (steps: seq<Step>)
    ensures Init(Leftover("a", OLD.lastBeat))
    ensures Run(Leftover("a", OLD.lastBeat), steps,
                State(0, map["a" := OLD, "b" := Row(Up, 0)], map["b" := Marker()]), p, d)
  {
    var s := Leftover("a", OLD.lastBeat);
    var rows := map["a" := OLD, "b" := Row(Up, 0)];
    var s1 := State(0, rows, map["b" := Node(map[], 0, 0, 0, 0, Idle)]);
    assert Apply(s, Start("b", {})).table == rows;
    var s2 := s1.(nodes := map["b" := Node(map[], 0, 0, 0, 0, Listed(rows, 0))]);
    assert Apply(s1, List("b", true)).nodes == s2.nodes;
    assert StalePeers(rows, "b", 0) == {"a"};
    assert Apply(s2, Read("b")).nodes == map["b" := Marker()];
    Extend(s, [], s, Start("b", {}), p, d);
    Extend(s, [] + [Start("b", {})], s1, List("b", true), p, d);
    Extend(s, [] + [Start("b", {})] + [List("b", true)], s2, Read("b"), p, d);
    steps := [] + [Start("b", {})] + [List("b", true)] + [Read("b")];
  }

  /** Then "a" starts, and beats after `d`. */
  lemma Restarted(p: int, d: int) returns (s: State, steps: seq<Step>, va: Table)
    requires 0 < p && 0 <= d <= p && d <= TIMEOUT
    ensures Init(s) && Run(s, steps, Two(d, Row(Up, d), Row(Up, 0), Resting(va, d), Marker()), p, d)
  {
    s := Leftover("a", OLD.lastBeat);
    var before := MarkerReached(p, d);
    var s1 := State(0, map["a" := OLD, "b" := Row(Up, 0)], map["b" := Marker()]);
    Extend(s, before, s1, Start("a", {}), p, d);
    var t := Two(0, Row(Up, 0), Row(Up, 0), Node(map[], 0, 0, 0, 0, Idle), Marker());
    assert Apply(s1, Start("a", {})).table == t.table && Apply(s1, Start("a", {})).nodes == t.nodes;
    va := map["a" := Row(Up, 0), "b" := Row(Up, 0)];
    steps := TickA(s, before + [Start("a", {})], 0, Row(Up, 0), Row(Up, 0), t.nodes["a"], Marker(), d, p, d);
  }

  /** What "b" does now: it marks "a", shows its listing and beats. */
  lemma MarksLate(d: int, na: Node)
    ensures var t := Two(d, Row(Up, d), Row(Up, 0), na, Marker());
            var t1 := Apply(t, Mark("b", "a", true));
            var t2 := Apply(t1, Show("b"));
            Apply(t2, Beat("b", true)) ==
            Two(d, Row(Down, d), Row(Up, d), na, Node(map["a" := OLD, "b" := Row(Up, 0)], 0, 0, 0, d, Idle))
  {
    var t := Two(d, Row(Up, d), Row(Up, 0), na, Marker());
    var u := Apply(Apply(Apply(t, Mark("b", "a", true)), Show("b")), Beat("b", true));
    var w := Two(d, Row(Down, d), Row(Up, d), na, Node(map["a" := OLD, "b" := Row(Up, 0)], 0, 0, 0, d, Idle));
    assert u.table == w.table && u.nodes == w.nodes;
  }

  lemma MarkedLate(p: int, d: int) returns (s: State, steps: seq<Step>, va: Table, vb: Table)
    requires 0 < p && 0 <= d <= p && d <= TIMEOUT
    ensures Init(s) && Run(s, steps, Two(d, Row(Down, d), Row(Up, d), Resting(va, d), Node(vb, 0, 0, 0, d, Idle)), p, d)
  {
    var before;
    s, before, va := Restarted(p, d);
    vb := map["a" := OLD, "b" := Row(Up, 0)];
    var t := Two(d, Row(Up, d), Row(Up, 0), Resting(va, d), Marker());
    var t1 := Apply(t, Mark("b", "a", true));
    var t2 := Apply(t1, Show("b"));
    MarksLate(d, Resting(va, d));
    Extend(s, before, t, Mark("b", "a", true), p, d);
    Extend(s, before + [Mark("b", "a", true)], t1, Show("b"), p, d);
    Extend(s, before + [Mark("b", "a", true)] + [Show("b")], t2, Beat("b", true), p, d);
    steps := before + [Mark("b", "a", true)] + [Show("b")] + [Beat("b", true)];
  }

  /** "b" has ticked once more, and a period has passed: "a" has still not beaten again. */
  function DownAgain(p: int, d: int, va: Table): State {
    Two(d + p, Row(Down, d), Row(Up, d), Resting(va, d), Resting(map["a" := Row(Down, d), "b" := Row(Up, d)], d))
  }

  lemma DownAgainReached(p: int, d: int) returns (s: State, steps: seq<Step>, va: Table)
    requires 0 < p && 0 <= d <= p && d <= TIMEOUT
    ensures Init(s) && Run(s, steps, DownAgain(p, d, va), p, d)
  {
    var before, vb;
    s, before, va, vb := MarkedLate(p, d);
    var ra, rb := Row(Down, d), Row(Up, d);
    var ticked := TickB(s, before, d, ra, rb, Resting(va, d), Node(vb, 0, 0, 0, d, Idle), d, p, d);
    Pass(s, ticked, d, ra, rb, Resting(va, d), Resting(map["a" := ra, "b" := rb], d), d + p, p, d);
    steps := ticked + [Advance(d + p)];
  }

  /** "b" listed "a" as DOWN once more before "a" beat and listed itself; then a period has passed. */
  function TwoLeading(p: int, d: int): State {
    var at := d + p;
    Two(at + p, Row(Up, at), Row(Up, at), Resting(map["a" := Row(Up, at), "b" := Row(Up, at)], at),
        Resting(map["a" := Row(Down, d), "b" := Row(Up, d)], at))
  }

  lemma BeatsAgain(p: int, d: int) returns (s: State, steps: seq<Step>, seen: Table)
    requires 0 < p && 0 <= d <= p && d <= TIMEOUT
    ensures var at := d + p;
            Init(s) && Run(s, steps, Two(at, Row(Up, at), Row(Up, at), Resting(seen, at),
                                         Resting(map["a" := Row(Down, d), "b" := Row(Up, d)], at)), p, d)
  {
    var before, va;
    s, before, va := DownAgainReached(p, d);
    var at, ra, rb := d + p, Row(Down, d), Row(Up, d);
    var v := map["a" := ra, "b" := rb];
    var once := TickB(s, before, at, ra, rb, Resting(va, d), Resting(v, d), at, p, d);
    steps := TickA(s, once, at, ra, Row(Up, at), Resting(va, d), Resting(v, at), at, p, d);
    seen := map["a" := ra, "b" := Row(Up, at)];
  }

  lemma TwoLeadingReached(p: int, d: int) returns (s: State, steps: seq<Step>)
    requires 0 < p && 0 <= d <= p && d <= TIMEOUT
    ensures Init(s) && Run(s, steps, TwoLeading(p, d), p, d)
  {
    var before, seen;
    s, before, seen := BeatsAgain(p, d);
    var at, up := d + p, Row(Up, d + p);
    var nb := Resting(map["a" := Row(Down, d), "b" := Row(Up, d)], at);
    var again := TickA(s, before, at, up, up, Resting(seen, at), nb, at, p, d);
    Pass(s, again, at, up, up, Resting(map["a" := up, "b" := up], at), nb, at + p, p, d);
    steps := again + [Advance(at + p)];
  }

  ghost predicate OneLeaderAfter(span: int, s: State, steps: seq<Step>, t: State, p: int, d: int,
                                 a: string, b: string)
  {
    Init(s) && Run(s, steps, t, p, d) && RunsFor(t, a, span) && RunsFor(t, b, span) && LeadsNow(t, a) && LeadsNow(t, b)
    ==> a == b
  }

  /** Waiting for `span` after every start rules out two leaders in all runs exactly when `span` is
      at least two periods and a refresh. */
  lemma LeadersWait(p: int, d: int, span: int)
    requires Timely(p, d) && d <= p
    ensures span >= 2 * p + d <==> forall s, steps, t, a, b :: OneLeaderAfter(span, s, steps, t, p, d, a, b)
  {
    if span >= 2 * p + d {
      forall s, steps, t, a, b ensures OneLeaderAfter(span, s, steps, t, p, d, a, b) {
        if Init(s) && Run(s, steps, t, p, d) && RunsFor(t, a, span) && RunsFor(t, b, span) && LeadsNow(t, a)
           && LeadsNow(t, b) {
          NeverTwoLeaders(s, steps, t, p, d, a, b);
        }
      }
    } else {
      var t := TwoLeading(p, d);
      var s, steps := TwoLeadingReached(p, d);
      assert UpKeys(t.nodes["a"].view) == {"a", "b"} && UpKeys(t.nodes["b"].view) == {"b"};
      assert AtMost("a", "a") && AtMost("a", "b") && AtMost("b", "b");
      assert LeadsNow(t, "a") && LeadsNow(t, "b");
      assert !OneLeaderAfter(span, s, steps, t, p, d, "a", "b");
    }
  }

  ghost predicate ShowsPeers(span: int, s: State, steps: seq<Step>, t: State, p: int, d: int) {
    Init(s) && Run(s, steps, t, p, d) ==>
      forall a, b :: RunsFor(t, a, span) && RunsFor(t, b, span) ==> ShownUp(t, a, b)
  }

  /** Likewise running nodes are cached as UP by each other in all runs exactly after that time. */
  lemma PeersWait(p: int, d: int, span: int)
    requires Timely(p, d) && d <= p
    ensures span >= 2 * p + d <==> forall s, steps, t :: ShowsPeers(span, s, steps, t, p, d)
  {
    if span >= 2 * p + d {
      forall s, steps, t ensures ShowsPeers(span, s, steps, t, p, d) {
        if Init(s) && Run(s, steps, t, p, d) {
          BoundedDetection(s, steps, t, p, d);
          assert forall a :: RunsFor(t, a, span) ==> RunsFor(t, a, p) && RunsFor(t, a, 2 * p + d);
        }
      }
    } else {
      var t := TwoLeading(p, d);
      var s, steps := TwoLeadingReached(p, d);
      assert RunsFor(t, "a", span) && RunsFor(t, "b", span) && !ShownUp(t, "b", "a");
      assert !ShowsPeers(span, s, steps, t, p, d);
    }
  }

  // ---------- running nodes stay UP ----------

  lemma {:induction false} BothFor(k: nat, p: int, d: int) returns (steps: seq<Step>, va: Table, vb: Table)
    requires 0 < p
    ensures Run(Leftover("b", 0), steps, Two(k, Row(Up, k), Row(Up, k), Resting(va, k), Resting(vb, k)), p, d)
  {
    var s := Leftover("b", 0);
    if k == 0 {
      var s1 := State(0, map["a" := Row(Up, 0), "b" := Row(Up, 0)], map["a" := Resting(map[], 0)]);
      assert Apply(s, Start("a", {})).table == s1.table;
      Extend(s, [], s, Start("a", {}), p, d);
      Extend(s, [] + [Start("a", {})], s1, Start("b", {}), p, d);
      va, vb := map[], map[];
      var t := Two(0, Row(Up, 0), Row(Up, 0), Resting(va, 0), Resting(vb, 0));
      assert Apply(s1, Start("b", {})).table == t.table && Apply(s1, Start("b", {})).nodes == t.nodes;
      steps := [] + [Start("a", {})] + [Start("b", {})];
    } else {
      var before, wa, wb := BothFor(k - 1, p, d);
      var up := Row(Up, k - 1);
      var once := TickA(s, before, k - 1, up, up, Resting(wa, k - 1), Resting(wb, k - 1), k, p, d);
      va, vb := map["a" := up, "b" := up], map["a" := Row(Up, k), "b" := up];
      steps := TickB(s, once, k, Row(Up, k), up, Resting(va, k), Resting(wb, k - 1), k, p, d);
    }
  }

  /** Node "b" ticked at `last` and is in the middle of a refresh that listed at `at`. */
  function Lister(vb: Table, last: int, rows: Table, at: int): Node {
    Node(vb, last, 0, last, last, Listed(rows, at))
  }

  lemma ListerReached(k: nat, x: int, y: int, p: int, d: int) returns (steps: seq<Step>, wa: Table, vb: Table)
    requires 0 < p && 0 <= y <= x <= p && y <= TIMEOUT
    ensures var up, rb := Row(Up, k), Row(Up, k + y);
            Run(Leftover("b", 0), steps,
                Two(k + x, up, rb, Resting(wa, k), Lister(vb, k + y, map["a" := up, "b" := rb], k + x)), p, d)
  {
    var s := Leftover("b", 0);
    var before, wb;
    before, wa, wb := BothFor(k, p, d);
    var up, rb, last, at := Row(Up, k), Row(Up, k + y), k + y, k + x;
    var ticked := TickB(s, before, k, up, up, Resting(wa, k), Resting(wb, k), last, p, d);
    vb := map["a" := up, "b" := up];
    Pass(s, ticked, last, up, rb, Resting(wa, k), Resting(vb, last), at, p, d);
    Extend(s, ticked + [Advance(at)], Two(at, up, rb, Resting(wa, k), Resting(vb, last)), List("b", true), p, d);
    NodesTicked(Resting(wa, k), Resting(vb, last), Lister(vb, last, map["a" := up, "b" := rb], at));
    steps := ticked + [Advance(at)] + [List("b", true)];
  }

  /** "b" listed the row of "a" before the last beat of "a", and has waited since. */
  function Behind(k: int, x: int, y: int, rb: Row, va: Table, vb: Table): State {
    Two(k + x + y, Row(Up, k + x), rb, Resting(va, k + x),
        Lister(vb, k + y, map["a" := Row(Up, k), "b" := Row(Up, k + y)], k + x))
  }

  lemma BehindReached(k: nat, x: int, y: int, p: int, d: int)
    returns (steps: seq<Step>, rb: Row, va: Table, vb: Table)
    requires 0 < p && 0 <= y <= x <= p && y <= d <= p && y <= TIMEOUT
    ensures Run(Leftover("b", 0), steps, Behind(k, x, y, rb, va, vb), p, d)
  {
    var s := Leftover("b", 0);
    var up, rl, at := Row(Up, k), Row(Up, k + y), k + x;
    var before, wa;
    before, wa, vb := ListerReached(k, x, y, p, d);
    va, rb := map["a" := up, "b" := rl], Judged(rl, at);
    var nb := Lister(vb, k + y, va, at);
    var ticked := TickA(s, before, at, up, rl, Resting(wa, k), nb, at, p, d);
    Pass(s, ticked, at, Row(Up, at), rb, Resting(va, at), nb, at + y, p, d);
    steps := ticked + [Advance(at + y)];
  }

  /** When a period and a refresh do not fit into the timeout, a node can be marked however long it
      has run. */
  lemma MarkedAtAnyAge(k: nat, p: int, d: int) returns (steps: seq<Step>, t: State)
    requires 0 < p && 0 <= d <= p && p + d > TIMEOUT
    ensures Init(Leftover("b", 0)) && Run(Leftover("b", 0), steps, t, p, d)
    ensures RunsFor(t, "a", k) && "a" in t.table && t.table["a"].state.Down?
  {
    var s := Leftover("b", 0);
    var y := if p > TIMEOUT then 0 else d;
    var x := if p > TIMEOUT then TIMEOUT + 1 else p;
    var before, rb, va, vb := BehindReached(k, x, y, p, d);
    var t1 := Behind(k, x, y, rb, va, vb);
    var t2 := Apply(t1, Read("b"));
    assert "a" in StalePeers(t1.nodes["b"].phase.rows, "b", t1.now);
    Extend(s, before, t1, Read("b"), p, d);
    Extend(s, before + [Read("b")], t2, Mark("b", "a", true), p, d);
    steps, t := before + [Read("b")] + [Mark("b", "a", true)], Apply(t2, Mark("b", "a", true));
  }

  /** In the table every node that has run for longer than `span` is UP. */
  ghost predicate StaysUp(span: int, s: State, steps: seq<Step>, t: State, p: int, d: int) {
    Init(s) && Run(s, steps, t, p, d) ==>
      forall b :: RunsFor(t, b, span) ==> b in t.table && t.table[b].state.Up?
  }

  /** Nodes that have run for `span` are UP in every run exactly when a period and a refresh fit into
      the timeout and into `span`. */
  lemma RunningStaysUp(p: int, d: int, span: int)
    requires 0 < p && 0 <= d <= p
    ensures p + d <= TIMEOUT && span >= p + d <==> forall s, steps, t :: StaysUp(span, s, steps, t, p, d)
  {
    if p + d > TIMEOUT {
      var k: nat := if span < 0 then 0 else span;
      var steps, t := MarkedAtAnyAge(k, p, d);
      assert RunsFor(t, "a", span);
      assert !StaysUp(span, Leftover("b", 0), steps, t, p, d);
    } else if span >= p + d {
      forall s, steps, t ensures StaysUp(span, s, steps, t, p, d) {
        if Init(s) && Run(s, steps, t, p, d) {
          BoundedDetection(s, steps, t, p, d);
          assert forall b :: RunsFor(t, b, span) ==> RunsFor(t, b, p + d);
        }
      }
    } else {
      var s, steps, va := DownAgainReached(p, d);
      var t := DownAgain(p, d, va);
      assert RunsFor(t, "a", span) && t.table["a"].state.Down?;
      assert !StaysUp(span, s, steps, t, p, d);
    }
  }

  // ---------- the bounds are exact: a stopped peer ----------

  /** Every node that has run for longer than `span` shows DOWN each stopped peer whose row is older
      than `bound`. */
  ghost predicate ShowsDown(span: int, bound: int, s: State, steps: seq<Step>, t: State, p: int, d: int) {
    Init(s) && Run(s, steps, t, p, d) ==>
      forall a, b :: RunsFor(t, a, span) && Dead(t, b) && t.now > t.table[b].lastBeat + bound ==> ShownDown(t, a, b)
  }

  /** Node "a", started at 0, has just ticked at `now`; the row of "b" is UP with an older beat. */
  function Beside(now: int, beat: int, view: Table): State {
    State(now, map["a" := Row(Up, now), "b" := Row(Up, beat)], map["a" := Resting(view, now)])
  }

  lemma TickBeside(now: int, beat: int, view: Table, to: int)
    requires to - beat <= TIMEOUT
    ensures Ticked(Beside(now, beat, view), "a", to) == Beside(to, beat, Beside(now, beat, view).table)
  {
    TableTicked(Row(Up, now), Row(Up, beat), to);
    assert Ticked(Beside(now, beat, view), "a", to).nodes == Beside(to, beat, Beside(now, beat, view).table).nodes;
  }

  /** "a" keeps ticking until exactly the timeout after the beat of "b", which it thus never marks. */
  lemma {:induction false} TickUntilTimeout(s: State, steps: seq<Step>, now: int, beat: int, view: Table,
                                            p: int, d: int)
    returns (longer: seq<Step>, last: Table)
    requires 0 < p && beat <= now <= beat + TIMEOUT
    requires Run(s, steps, Beside(now, beat, view), p, d)
    ensures Run(s, longer, Beside(beat + TIMEOUT, beat, last), p, d)
    decreases beat + TIMEOUT - now
  {
    if now == beat + TIMEOUT {
      longer, last := steps, view;
    } else {
      var to := if now + p < beat + TIMEOUT then now + p else beat + TIMEOUT;
      var next := Tick(s, steps, Beside(now, beat, view), "a", to, p, d);
      TickBeside(now, beat, view, to);
      longer, last := TickUntilTimeout(s, next, to, beat, Beside(now, beat, view).table, p, d);
    }
  }

  /** A state in which "a", started at 0, caches the row of "b" as UP though that last beat at `beat`. */
  ghost predicate ShowsUp(t: State, beat: int) {
    && "a" in t.nodes && t.nodes["a"].startedAt == 0
    && Dead(t, "b") && t.table["b"].lastBeat == beat
    && ShownUp(t, "a", "b")
  }

  /** Only "a" runs, and has just ticked. */
  ghost predicate AtRest(t: State) {
    && t.nodes.Keys == {"a"} && t.nodes["a"].phase.Idle?
    && t.nodes["a"].startedAt == 0 && t.nodes["a"].lastRefresh == t.nodes["a"].lastBeat == t.now
  }

  lemma Wait(s: State, steps: seq<Step>, u: State, beat: int, p: int, d: int) returns (longer: seq<Step>, t: State)
    requires 0 < p && Run(s, steps, u, p, d) && ShowsUp(u, beat) && AtRest(u)
    ensures Run(s, longer, t, p, d) && t.now == u.now + p && ShowsUp(t, beat)
  {
    Extend(s, steps, u, Advance(u.now + p), p, d);
    longer, t := steps + [Advance(u.now + p)], Apply(u, Advance(u.now + p));
  }

  /** A tick of "a" caches the row of "b" as it was, still UP, and a period can pass before the next. */
  lemma StillUp(s: State, steps: seq<Step>, before: State, p: int, d: int) returns (longer: seq<Step>, t: State)
    requires 0 < p && Run(s, steps, before, p, d) && AtRest(before)
    requires "b" in before.table && before.table["b"].state.Up?
    ensures Run(s, longer, t, p, d) && t.now == before.now + 2 * p && ShowsUp(t, before.table["b"].lastBeat)
  {
    var ticked := Tick(s, steps, before, "a", before.now + p, p, d);
    var u := Ticked(before, "a", before.now + p);
    assert u.nodes.Keys == before.nodes.Keys;
    longer, t := Wait(s, ticked, u, before.table["b"].lastBeat, p, d);
  }

  /** A node that has run for exactly two periods can still show a peer UP, however old its row. */
  lemma YoungNode(beat: int, p: int, d: int) returns (steps: seq<Step>, t: State)
    requires 0 < p && beat <= 0
    ensures Init(Leftover("b", beat)) && Run(Leftover("b", beat), steps, t, p, d) && t.now == 2 * p
    ensures ShowsUp(t, beat)
  {
    var s := Leftover("b", beat);
    Extend(s, [], s, Start("a", {}), p, d);
    var u := Apply(s, Start("a", {}));
    steps, t := StillUp(s, [] + [Start("a", {})], u, p, d);
  }

  function Nothing(): State {
    State(0, map[], map[])
  }

  /** Node "a", started at 0, is alone and has just ticked at `now`. */
  function Alone(now: int, view: Table): State {
    State(now, map["a" := Row(Up, now)], map["a" := Resting(view, now)])
  }

  lemma TickAlone(now: int, view: Table, to: int)
    ensures Ticked(Alone(now, view), "a", to) == Alone(to, Alone(now, view).table)
  {
    var s := Alone(now, view);
    assert Ticked(s, "a", to).table == Alone(to, s.table).table;
    assert Ticked(s, "a", to).nodes == Alone(to, s.table).nodes;
  }

  lemma {:induction false} AloneFor(k: nat, p: int, d: int) returns (steps: seq<Step>, view: Table)
    requires 0 < p
    ensures Run(Nothing(), steps, Alone(k, view), p, d)
  {
    if k == 0 {
      Extend(Nothing(), [], Nothing(), Start("a", {}), p, d);
      steps, view := [] + [Start("a", {})], map[];
      assert Apply(Nothing(), Start("a", {})).table == Alone(0, view).table;
    } else {
      var before, seen := AloneFor(k - 1, p, d);
      steps := Tick(Nothing(), before, Alone(k - 1, seen), "a", k, p, d);
      view := Alone(k - 1, seen).table;
      TickAlone(k - 1, seen, k);
    }
  }

  /** However long a node has run, it can show a peer UP at exactly 15 s and two periods after the
      peer's last beat. */
  lemma OldNode(k: nat, p: int, d: int) returns (steps: seq<Step>, t: State)
    requires 0 < p
    ensures Init(Nothing()) && Run(Nothing(), steps, t, p, d) && t.now == k + TIMEOUT + 2 * p
    ensures ShowsUp(t, k)
  {
    var before, view := AloneFor(k, p, d);
    var s1 := Apply(Alone(k, view), Start("b", {}));
    Extend(Nothing(), before, Alone(k, view), Start("b", {}), p, d);
    Extend(Nothing(), before + [Start("b", {})], s1, Crash("b"), p, d);
    var s2 := Apply(s1, Crash("b"));
    assert s2.table == Beside(k, k, view).table && s2.nodes == Beside(k, k, view).nodes;
    var ticked, last := TickUntilTimeout(Nothing(), before + [Start("b", {})] + [Crash("b")], k, k, view, p, d);
    steps, t := StillUp(Nothing(), ticked, Beside(k + TIMEOUT, k, last), p, d);
  }

  /** Detection takes two periods of the node's own and 15 s plus two periods of the peer's silence:
      in all runs stopped peers are shown DOWN after the given times exactly when both are that long. */
  lemma DetectionIsExact(p: int, d: int, span: int, bound: int)
    requires Timely(p, d)
    ensures span >= 2 * p && bound >= TIMEOUT + 2 * p <==>
            forall s, steps, t :: ShowsDown(span, bound, s, steps, t, p, d)
  {
    if span >= 2 * p && bound >= TIMEOUT + 2 * p {
      forall s, steps, t ensures ShowsDown(span, bound, s, steps, t, p, d) {
        if Init(s) && Run(s, steps, t, p, d) {
          BoundedDetection(s, steps, t, p, d);
          forall a, b | RunsFor(t, a, span) && Dead(t, b) && t.now > t.table[b].lastBeat + bound
            ensures ShownDown(t, a, b)
          {
            assert RunsFor(t, a, 2 * p) && LongDead(t, b, p);
          }
        }
      }
    } else if span < 2 * p {
      var beat := if bound < 0 then 0 else -bound;
      var steps, t := YoungNode(beat, p, d);
      assert RunsFor(t, "a", span);
      assert !ShowsDown(span, bound, Leftover("b", beat), steps, t, p, d);
    } else {
      var steps, t := OldNode(span, p, d);
      assert RunsFor(t, "a", span);
      assert !ShowsDown(span, bound, Nothing(), steps, t, p, d);
    }
  }
}
