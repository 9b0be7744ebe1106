/** The client's watch loop, alone and among publishers. */
module WatchConfig {
  import opened ConfigStorage
  import opened ConfigService
  import opened ListeningCodec

  // ---------- the loop ----------

  /** An answer of GetConfig: an error (also for a missing row), or the row's content and digest. */
  datatype Fetched = NoItem | Got(content: string, md5: string)

  /** What the loop remembers, and the contents it has handed to `onChange`. */
  datatype Watcher = Watcher(lastMD5: string, lastContent: string, delivered: seq<string>)

  function Started(initial: Fetched): Watcher {
    if initial.Got? then Watcher(initial.md5, initial.content, []) else Watcher("", "", [])
  }

  function Take(w: Watcher, f: Fetched): Watcher {
    if f.NoItem? || f.md5 == w.lastMD5 then w
    else if f.content == w.lastContent then w.(lastMD5 := f.md5)
    else Watcher(f.md5, f.content, w.delivered + [f.content])
  }

  /** One pass of the loop: the poll failed, or answered with `data`; what a fetch would return. */
  datatype Round = PollFailed | Answered(data: string, item: Fetched)

  function Rounds(w: Watcher, rounds: seq<Round>): Watcher {
    if rounds == [] then w
    else
      var v := Rounds(w, rounds[..|rounds| - 1]);
      var r := rounds[|rounds| - 1];
      if r.Answered? && r.data != "" then Take(v, r.item) else v
  }

  /** What one more round does: only a reported change that brings a new digest is taken over, and only
      a new content is delivered. A failed or empty poll does nothing. */
  lemma OneMoreRound(w: Watcher, rounds: seq<Round>, r: Round)
    ensures var before, after := Rounds(w, rounds), Rounds(w, rounds + [r]);
            && (r.PollFailed? || r.data == "" ==> after == before)
            && (r.Answered? && r.data != "" ==>
                  if r.item.Got? && r.item.md5 != before.lastMD5
                  then after.lastMD5 == r.item.md5 && after.lastContent == r.item.content
                       && after.delivered == before.delivered
                                             + (if r.item.content != before.lastContent then [r.item.content] else [])
                  else after == before)
  {
    assert (rounds + [r])[..|rounds|] == rounds;
  }

  lemma {:induction false} RoundsFromFront(w: Watcher, r: Round, rest: seq<Round>)
    ensures Rounds(w, [r] + rest) == Rounds(Rounds(w, [r]), rest)
    decreases |rest|
  {
    if rest == [] {
      assert [r] + rest == [r];
    } else {
      var init := rest[..|rest| - 1];
      RoundsFromFront(w, r, init);
      assert ([r] + rest)[..|rest|] == [r] + init;
    }
  }

  /** The loop until it is stopped after the given rounds. */
  method Watch(initial: Fetched, rounds: seq<Round>)
    returns (delivered: seq<string>, lastMD5: string, lastContent: string)
    ensures Watcher(lastMD5, lastContent, delivered) == Rounds(Started(initial), rounds)
    ensures forall i :: 0 < i < |delivered| ==> delivered[i] != delivered[i - 1]
    ensures delivered != [] ==> delivered[0] != if initial.Got? then initial.content else ""
    ensures rounds == [] ==>
              && delivered == []
              && (initial.Got? ==> lastMD5 == initial.md5 && lastContent == initial.content)
              && (initial.NoItem? ==> lastMD5 == "" && lastContent == "")
  {
    lastMD5, lastContent, delivered := "", "", [];
    if initial.Got? {
      lastMD5 := initial.md5;
      lastContent := initial.content;
    }
    for i := 0 to |rounds|
      invariant Watcher(lastMD5, lastContent, delivered) == Rounds(Started(initial), rounds[..i])
      invariant forall j :: 0 < j < |delivered| ==> delivered[j] != delivered[j - 1]
      invariant if delivered == [] then lastContent == Started(initial).lastContent
        else delivered[0] != Started(initial).lastContent && lastContent == delivered[|delivered| - 1]
    {
      assert rounds[..i + 1][..i] == rounds[..i];
      match rounds[i]
      case PollFailed =>
      case Answered(data, item) =>
        if data != "" {
          if item.Got? && item.md5 != lastMD5 {
            lastMD5 := item.md5;
            if item.content != lastContent {
              lastContent := item.content;
              delivered := delivered + [item.content];
            }
          }
        }
    }
    assert rounds[..|rounds|] == rounds;
  }

  // ---------- the loop among publishers ----------

  datatype Phase = Starting | Polling | Fetching

  /** The database and one watcher. `adopted` is the position in the log of the record the watcher
      took last (-1: none), `at` the positions of the delivered ones, `initial` the content of the
      first snapshot. The loop itself does not know them. */
  datatype State = State(db: Db, phase: Phase, w: Watcher, initial: string, adopted: int, at: seq<nat>)

  /** A poll may report at any time, for its namespace holds other keys too; it may also time out
      or fail, and so may a fetch. */
  datatype Step = Commit(tx: Tx) | Begin(ok: bool) | Report | Retry | Fetch(ok: bool)

  function Snapshot(db: Db, k: Key, ok: bool): Fetched {
    if ok && k in db.rows then Got(db.rows[k].content, db.rows[k].md5) else NoItem
  }

  /** The position of the newest record of a key, or -1. */
  function NewestAt(log: seq<Record>, k: Key): (i: int)
    ensures -1 <= i < |log|
    ensures i >= 0 ==> log[i].key == k
    ensures forall j :: i < j < |log| ==> log[j].key != k
    ensures i >= 0 <==> NewestFirst(log, k) != []
    ensures i >= 0 ==> NewestFirst(log, k)[0] == log[i]
  {
    if log == [] then -1
    else if log[|log| - 1].key == k then |log| - 1
    else NewestAt(log[..|log| - 1], k)
  }

  function Adopt(s: State, k: Key, f: Fetched): State {
    var v := Take(s.w, f);
    var p := NewestAt(s.db.log, k);
    s.(w := v, phase := Polling,
    adopted := if v.lastMD5 != s.w.lastMD5 then p else s.adopted,
    at := if |v.delivered| > |s.w.delivered| && p >= 0 then s.at + [p] else s.at)
  }

  function Apply(s: State, step: Step, k: Key, md5: string -> string): State {
    match step
    case Commit(tx) => s.(db := ApplyTx(s.db, tx, md5))
    case Begin(ok) =>
      if s.phase.Starting? then
        var f := Snapshot(s.db, k, ok);
        s.(phase := Polling, w := Started(f), initial := Started(f).lastContent,
        adopted := if f.Got? then NewestAt(s.db.log, k) else -1)
      else s
    case Report => if s.phase.Polling? then s.(phase := Fetching) else s
    case Retry => s
    case Fetch(ok) => if s.phase.Fetching? then Adopt(s, k, Snapshot(s.db, k, ok)) else s
  }

  function Run(s: State, steps: seq<Step>, k: Key, md5: string -> string): State
    decreases |steps|
  {
    if steps == [] then s else Run(Apply(s, steps[0], k, md5), steps[1..], k, md5)
  }

  /** What one more step of a run does. A commit changes the tables and not the watcher; the first fetch
      starts the polls; a report leads to a fetch, a retry to the next poll; and a fetch goes back to
      polling with what it brought, if anything. */
  lemma OneMoreStep(s: State, steps: seq<Step>, step: Step, k: Key, md5: string -> string)
    ensures var t, u := Run(s, steps, k, md5), Run(s, steps + [step], k, md5);
            && u.db == (if step.Commit? then ApplyTx(t.db, step.tx, md5) else t.db)
            && (step.Commit? || step.Retry? ==> u.phase == t.phase && u.w == t.w)
            && (step.Begin? && t.phase.Starting? ==>
                  && u.phase.Polling? && u.w.delivered == []
                  && (if step.ok && k in t.db.rows
                      then u.w.lastMD5 == t.db.rows[k].md5 && u.w.lastContent == t.db.rows[k].content
                      else u.w.lastMD5 == "" && u.w.lastContent == "")
                  && u.initial == u.w.lastContent)
            && (step.Report? && t.phase.Polling? ==> u.phase.Fetching? && u.w == t.w)
            && (step.Fetch? && t.phase.Fetching? ==>
                  && u.phase.Polling?
                  && (if step.ok && k in t.db.rows && t.db.rows[k].md5 != t.w.lastMD5
                      then u.w.lastMD5 == t.db.rows[k].md5 && u.w.lastContent == t.db.rows[k].content
                      else u.w == t.w))
  {
    RunSplits(s, steps, [step], k, md5);
    assert [step][1..] == [];
  }

  ghost predicate Hex(md5: string -> string) {
    forall c :: md5(c) != "" && SeparatorFree(md5(c))
  }

  ghost predicate Injective(md5: string -> string) {
    forall c, d :: md5(c) == md5(d) ==> c == d
  }

  ghost predicate Init(s: State) {
    s.phase.Starting? && s.w == Watcher("", "", []) && s.initial == "" && s.adopted == -1 && s.at == []
  }

  ghost predicate Sound(db: Db, md5: string -> string) {
    Mirrors(db) && Digested(db, md5)
  }

  /** Each delivered content is that of a publish record of the key, at increasing positions. */
  ghost predicate FromLog(s: State, k: Key) {
    && |s.at| == |s.w.delivered|
    && (forall i :: 0 <= i < |s.at| ==> s.at[i] < |s.db.log|)
    && (forall i :: 0 <= i < |s.at| ==>
                      s.db.log[s.at[i]].key == k && s.db.log[s.at[i]].op.U? && s.db.log[s.at[i]].content == s.w.delivered[i])
    && (forall i, j :: 0 <= i < j < |s.at| ==> s.at[i] < s.at[j])
  }

  ghost predicate NoRepeat(s: State) {
    && (forall i :: 0 < i < |s.w.delivered| ==> s.w.delivered[i] != s.w.delivered[i - 1])
    && (s.w.delivered != [] ==> s.w.delivered[0] != s.initial)
    && s.w.lastContent == if s.w.delivered == [] then s.initial else s.w.delivered[|s.w.delivered| - 1]
  }

  /** The watcher remembers content and digest of one record, not older than its deliveries. */
  ghost predicate Remembers(s: State, k: Key, md5: string -> string) {
    && -1 <= s.adopted < |s.db.log|
    && (s.w.lastMD5 == "" <==> s.adopted == -1)
    && (forall i :: 0 <= i < |s.at| ==> s.at[i] <= s.adopted)
    && (s.adopted >= 0 ==>
          && s.db.log[s.adopted] == Record(k, s.w.lastContent, s.w.lastMD5, U)
          && s.w.lastMD5 == md5(s.w.lastContent))
  }

  ghost predicate Inv(s: State, k: Key, md5: string -> string) {
    Sound(s.db, md5) && FromLog(s, k) && NoRepeat(s) && Remembers(s, k, md5) && (s.phase.Starting? ==> Init(s))
  }

  /** A row is what the newest record of its key published. */
  lemma RowIsNewest(db: Db, k: Key)
    requires Mirrors(db) && k in db.rows
    ensures NewestAt(db.log, k) >= 0
    ensures db.log[NewestAt(db.log, k)] == Record(k, db.rows[k].content, db.rows[k].md5, U)
  {
    ReplayIsNewest(db.log, k);
  }

  lemma AdoptRemembers(s: State, k: Key, ok: bool, md5: string -> string)
    requires Hex(md5) && Sound(s.db, md5) && Remembers(s, k, md5)
    ensures Remembers(Adopt(s, k, Snapshot(s.db, k, ok)), k, md5)
    ensures Adopt(s, k, Snapshot(s.db, k, ok)).w != s.w ==>
              k in s.db.rows && Adopt(s, k, Snapshot(s.db, k, ok)).w.lastContent == s.db.rows[k].content
              && s.adopted < NewestAt(s.db.log, k)
  {
    var f := Snapshot(s.db, k, ok);
    if f.Got? && f.md5 != s.w.lastMD5 {
      RowIsNewest(s.db, k);
      assert s.adopted >= 0 ==> s.db.log[s.adopted].key == k;
      assert s.adopted != NewestAt(s.db.log, k);
      assert Adopt(s, k, f).adopted == NewestAt(s.db.log, k);
    }
  }

  lemma AdoptFromLog(s: State, k: Key, ok: bool, md5: string -> string)
    requires Hex(md5) && Sound(s.db, md5) && Remembers(s, k, md5) && FromLog(s, k)
    ensures FromLog(Adopt(s, k, Snapshot(s.db, k, ok)), k)
  {
    AdoptRemembers(s, k, ok, md5);
    if k in s.db.rows {
      RowIsNewest(s.db, k);
    }
  }

  lemma AdoptNoRepeat(s: State, k: Key, f: Fetched)
    requires NoRepeat(s)
    ensures NoRepeat(Adopt(s, k, f))
  {
  }

  lemma AdoptKeeps(s: State, k: Key, ok: bool, md5: string -> string)
    requires Hex(md5) && Inv(s, k, md5) && !s.phase.Starting?
    ensures Inv(Adopt(s, k, Snapshot(s.db, k, ok)), k, md5)
  {
    AdoptRemembers(s, k, ok, md5);
    AdoptFromLog(s, k, ok, md5);
    AdoptNoRepeat(s, k, Snapshot(s.db, k, ok));
  }

  lemma BeginKeeps(s: State, k: Key, ok: bool, md5: string -> string)
    requires Hex(md5) && Inv(s, k, md5) && s.phase.Starting?
    ensures Inv(Apply(s, Begin(ok), k, md5), k, md5)
  {
    if Snapshot(s.db, k, ok).Got? {
      RowIsNewest(s.db, k);
    }
  }

  lemma CommitStepKeeps(s: State, tx: Tx, k: Key, md5: string -> string)
    requires Inv(s, k, md5)
    ensures Inv(s.(db := ApplyTx(s.db, tx, md5)), k, md5)
  {
    var db := ApplyTx(s.db, tx, md5);
    TxKeeps(s.db, tx, md5);
    assert s.db.log == db.log[..|s.db.log|];
    assert forall i :: 0 <= i < |s.db.log| ==> db.log[i] == s.db.log[i];
    var t := s.(db := db);
    assert FromLog(t, k);
    assert Remembers(t, k, md5);
  }

  lemma ReportKeeps(s: State, k: Key, md5: string -> string)
    requires Inv(s, k, md5)
    ensures Inv(Apply(s, Report, k, md5), k, md5)
  {
  }

  lemma StepKeeps(s: State, step: Step, k: Key, md5: string -> string)
    requires Hex(md5) && Inv(s, k, md5)
    ensures Inv(Apply(s, step, k, md5), k, md5)
  {
    match step
    case Commit(tx) => CommitStepKeeps(s, tx, k, md5);
    case Begin(ok) =>
      if s.phase.Starting? {
        BeginKeeps(s, k, ok, md5);
      }
    case Report => ReportKeeps(s, k, md5);
    case Retry =>
    case Fetch(ok) =>
      if s.phase.Fetching? {
        AdoptKeeps(s, k, ok, md5);
      }
  }

  lemma {:induction false} RunKeeps(s: State, steps: seq<Step>, k: Key, md5: string -> string)
    requires Hex(md5) && Inv(s, k, md5)
    ensures Inv(Run(s, steps, k, md5), k, md5)
    decreases |steps|
  {
    if steps != [] {
      StepKeeps(s, steps[0], k, md5);
      RunKeeps(Apply(s, steps[0], k, md5), steps[1..], k, md5);
    }
  }

  /** In every interleaving with publishers the callback sees contents the key was given, in the
      order it was given them, never the same twice in a row, and first one that differs from the
      initial snapshot. This needs no injective digest. */
  lemma Deliveries(s: State, steps: seq<Step>, k: Key, md5: string -> string)
    requires Hex(md5) && Init(s) && Sound(s.db, md5)
    ensures var t := Run(s, steps, k, md5); FromLog(t, k) && NoRepeat(t)
  {
    RunKeeps(s, steps, k, md5);
  }

  // ---------- the runs are those of the loop ----------

  /** The first fetch and the rounds of the loop in a run: each completed fetch belongs to a poll that
      reported something, each retry to one that failed or came back empty. */
  ghost predicate Plays(s: State, steps: seq<Step>, initial: Fetched, rounds: seq<Round>, k: Key,
                        md5: string -> string)
    decreases |steps|
  {
    if steps == [] then rounds == [] && (s.phase.Starting? ==> initial.NoItem?)
    else
      var next, later := Apply(s, steps[0], k, md5), steps[1..];
      if steps[0].Begin? && s.phase.Starting? then
        initial == Snapshot(s.db, k, steps[0].ok) && Plays(next, later, initial, rounds, k, md5)
      else if steps[0].Fetch? && s.phase.Fetching? then
        && rounds != [] && rounds[0].Answered? && rounds[0].data != ""
        && rounds[0].item == Snapshot(s.db, k, steps[0].ok)
        && Plays(next, later, initial, rounds[1..], k, md5)
      else if steps[0].Retry? && s.phase.Polling? then
        && rounds != [] && (rounds[0].PollFailed? || rounds[0].data == "")
        && Plays(next, later, initial, rounds[1..], k, md5)
      else Plays(next, later, initial, rounds, k, md5)
  }

  lemma FirstRound(w: Watcher, rounds: seq<Round>)
    requires rounds != []
    ensures Rounds(w, rounds) == Rounds(Rounds(w, [rounds[0]]), rounds[1..])
    ensures var r := rounds[0];
            Rounds(w, [r]) == if r.Answered? && r.data != "" then Take(w, r.item) else w
  {
    assert rounds == [rounds[0]] + rounds[1..];
    RoundsFromFront(w, rounds[0], rounds[1..]);
    assert [rounds[0]][..0] == [];
  }

  /** In every run the watcher is what the loop computes from those rounds. */
  lemma {:induction false} RunIsWatch(s: State, steps: seq<Step>, initial: Fetched, rounds: seq<Round>, k: Key,
                                      md5: string -> string)
    requires Plays(s, steps, initial, rounds, k, md5)
    requires s.phase.Starting? ==> s.w == Watcher("", "", [])
    ensures Run(s, steps, k, md5).w == Rounds(if s.phase.Starting? then Started(initial) else s.w, rounds)
    decreases |steps|
  {
    if steps != [] {
      var next, later := Apply(s, steps[0], k, md5), steps[1..];
      if (steps[0].Fetch? && s.phase.Fetching?) || (steps[0].Retry? && s.phase.Polling?) {
        FirstRound(s.w, rounds);
        RunIsWatch(next, later, initial, rounds[1..], k, md5);
      } else {
        RunIsWatch(next, later, initial, rounds, k, md5);
      }
    }
  }

  /** And every run has such rounds, whatever non-empty text the reports carry. */
  lemma {:induction false} RunHasRounds(s: State, steps: seq<Step>, data: string, k: Key, md5: string -> string)
    returns (initial: Fetched, rounds: seq<Round>)
    requires data != ""
    ensures Plays(s, steps, initial, rounds, k, md5)
    decreases |steps|
  {
    if steps == [] {
      initial, rounds := NoItem, [];
    } else {
      initial, rounds := RunHasRounds(Apply(s, steps[0], k, md5), steps[1..], data, k, md5);
      if steps[0].Begin? && s.phase.Starting? {
        var rest := rounds;
        PlaysAnyStart(Apply(s, steps[0], k, md5), steps[1..], initial, Snapshot(s.db, k, steps[0].ok), rest, k, md5);
        initial := Snapshot(s.db, k, steps[0].ok);
      } else if steps[0].Fetch? && s.phase.Fetching? {
        var r := Answered(data, Snapshot(s.db, k, steps[0].ok));
        assert ([r] + rounds)[1..] == rounds;
        rounds := [r] + rounds;
      } else if steps[0].Retry? && s.phase.Polling? {
        assert ([PollFailed] + rounds)[1..] == rounds;
        rounds := [PollFailed] + rounds;
      }
    }
  }

  /** So whatever `Watch` returns for the rounds of a run is the watcher of that run. */
  lemma RunIsSomeWatch(s: State, steps: seq<Step>, data: string, k: Key, md5: string -> string)
    returns (initial: Fetched, rounds: seq<Round>)
    requires Init(s) && data != ""
    ensures Plays(s, steps, initial, rounds, k, md5)
    ensures Run(s, steps, k, md5).w == Rounds(Started(initial), rounds)
  {
    initial, rounds := RunHasRounds(s, steps, data, k, md5);
    RunIsWatch(s, steps, initial, rounds, k, md5);
  }

  /** Once the loop has begun the first fetch no longer matters. */
  lemma {:induction false} PlaysAnyStart(s: State, steps: seq<Step>, one: Fetched, other: Fetched, rounds: seq<Round>,
                                         k: Key, md5: string -> string)
    requires Plays(s, steps, one, rounds, k, md5) && !s.phase.Starting?
    ensures Plays(s, steps, other, rounds, k, md5)
    decreases |steps|
  {
    if steps != [] {
      var next, later := Apply(s, steps[0], k, md5), steps[1..];
      var played := (steps[0].Fetch? && s.phase.Fetching?) || (steps[0].Retry? && s.phase.Polling?);
      PlaysAnyStart(next, later, one, other, if played then rounds[1..] else rounds, k, md5);
    }
  }

  // ---------- convergence ----------

  ghost predicate LeavesAlone(steps: seq<Step>, k: Key) {
    forall i :: 0 <= i < |steps| && steps[i].Commit? ==> steps[i].tx.key != k
  }

  ghost predicate Current(s: State, k: Key) {
    k in s.db.rows && s.w.lastMD5 == s.db.rows[k].md5 && s.w.lastContent == s.db.rows[k].content
  }

  /** One completed fetch brings the watcher to the row. */
  lemma FetchConverges(s: State, k: Key, md5: string -> string)
    requires Hex(md5) && Injective(md5) && Digested(s.db, md5) && Remembers(s, k, md5)
    requires s.phase.Fetching? && k in s.db.rows
    ensures Current(Apply(s, Fetch(true), k, md5), k)
  {
  }

  /** What a stretch from `s` to `t` without a commit to the key can do to the watcher. */
  ghost predicate Settles(s: State, t: State, k: Key)
    requires k in s.db.rows
  {
    && k in t.db.rows && t.db.rows[k] == s.db.rows[k] && !t.phase.Starting?
    && (t.w != s.w ==> Current(t, k))
    && (t.w.delivered == s.w.delivered || t.w.delivered == s.w.delivered + [s.db.rows[k].content])
    && (Current(s, k) ==> t.w == s.w)
  }

  lemma SettledStep(s: State, step: Step, k: Key, md5: string -> string)
    requires !s.phase.Starting? && k in s.db.rows
    requires step.Commit? ==> step.tx.key != k
    requires Remembers(s, k, md5) && Digested(s.db, md5)
    ensures Settles(s, Apply(s, step, k, md5), k)
  {
  }

  /** While the row does not change, the watcher takes over at most one content, that of the row,
      and once it is current it never calls back again. */
  lemma {:induction false} SettledRun(s: State, steps: seq<Step>, k: Key, md5: string -> string)
    requires Hex(md5) && Inv(s, k, md5) && !s.phase.Starting? && k in s.db.rows
    requires LeavesAlone(steps, k)
    ensures Settles(s, Run(s, steps, k, md5), k)
    decreases |steps|
  {
    if steps != [] {
      var u := Apply(s, steps[0], k, md5);
      StepKeeps(s, steps[0], k, md5);
      SettledStep(s, steps[0], k, md5);
      SettledRun(u, steps[1..], k, md5);
    }
  }

  lemma {:induction false} RunSplits(s: State, xs: seq<Step>, ys: seq<Step>, k: Key, md5: string -> string)
    ensures Run(s, xs + ys, k, md5) == Run(Run(s, xs, k, md5), ys, k, md5)
    decreases |xs|
  {
    if xs == [] {
      assert xs + ys == ys;
    } else {
      assert (xs + ys)[1..] == xs[1..] + ys;
      RunSplits(Apply(s, xs[0], k, md5), xs[1..], ys, k, md5);
    }
  }

  lemma FetchThenSettles(u: State, after: seq<Step>, k: Key, md5: string -> string)
    requires Hex(md5) && Injective(md5) && Inv(u, k, md5) && u.phase.Fetching? && k in u.db.rows
    requires LeavesAlone(after, k)
    ensures Current(Run(u, [Fetch(true)] + after, k, md5), k)
  {
    var v := Apply(u, Fetch(true), k, md5);
    FetchConverges(u, k, md5);
    StepKeeps(u, Fetch(true), k, md5);
    SettledRun(v, after, k, md5);
    assert ([Fetch(true)] + after)[1..] == after;
  }

  /** Once the row is present and stops changing, a run with one completed poll and fetch ends with
      the row's digest and content, whatever else happens before and after. */
  lemma Convergence(s: State, before: seq<Step>, after: seq<Step>, k: Key, md5: string -> string)
    requires Hex(md5) && Injective(md5) && Inv(s, k, md5) && !s.phase.Starting? && k in s.db.rows
    requires LeavesAlone(before, k) && LeavesAlone(after, k)
    requires Run(s, before, k, md5).phase.Fetching?
    ensures Current(Run(s, before + ([Fetch(true)] + after), k, md5), k)
  {
    SettledRun(s, before, k, md5);
    RunKeeps(s, before, k, md5);
    FetchThenSettles(Run(s, before, k, md5), after, k, md5);
    RunSplits(s, before, [Fetch(true)] + after, k, md5);
  }

  /** The digests the server compares when this watcher polls. */
  function Announced(k: Key, lastMD5: string): Digests {
    map[Joined(k) := lastMD5]
  }

  /** The printed request reaches the poll as exactly that, for an audible key. */
  lemma RequestHeard(k: Key, lastMD5: string, tenant: string)
    requires var e := Entry(k.dataId, k.group, lastMD5, k.ns); AllSeparatorFree(e) && Audible(e)
    ensures var parsed := Parsed(Encode([Entry(k.dataId, k.group, lastMD5, k.ns)]));
            AllFour(parsed) && ClientMap(parsed) == Announced(k, lastMD5) && PolledNamespace(parsed, tenant) == k.ns
  {
    OneEntryHeard(Entry(k.dataId, k.group, lastMD5, k.ns), tenant);
  }

  /** A tick is quiet for the watcher exactly when every row of its namespace has the joined key of
      the watched one and some such row carries the digest it remembers. */
  lemma TickIsQuiet(db: Db, k: Key, lastMD5: string)
    ensures Quiet(Seen(db), k.ns, Announced(k, lastMD5)) <==>
            && (forall j :: j in RowsOf(db.rows, k.ns) ==> Joined(j) == Joined(k))
            && exists j :: j in RowsOf(db.rows, k.ns) && db.rows[j].md5 == lastMD5
  {
    var m, rows := Announced(k, lastMD5), RowsOf(db.rows, k.ns);
    if IsDigestMap(m, db.rows, k.ns) {
      assert Joined(k) in m;
      forall j | j in rows ensures Joined(j) == Joined(k) {
        assert Joined(j) in m;
      }
    }
    if j :| j in rows && db.rows[j].md5 == lastMD5 && Joined(j) == Joined(k) {
      assert m[Joined(k)] == db.rows[j].md5;
    }
  }

  /** So a tick can miss a change: here the watched row is gone, and a row whose joined key is the
      same carries the remembered digest. */
  lemma TickCanMiss(item: Item, log: seq<Record>)
    ensures var k := Key("n", "a", "b#c");
            var db := Db(map[Key("n", "a#b", "c") := item], log);
            k !in db.rows && Quiet(Seen(db), k.ns, Announced(k, item.md5))
  {
    var k, j := Key("n", "a", "b#c"), Key("n", "a#b", "c");
    var db := Db(map[j := item], log);
    JoinedKeysCanCollide();
    TickIsQuiet(db, k, item.md5);
    assert j in RowsOf(db.rows, k.ns);
    assert forall i :: i in RowsOf(db.rows, k.ns) ==> i == j;
  }

  /** Where joined keys are distinct a tick never misses a change of the row; and with any other row
      in the namespace, or after a deletion, every poll reports at its first tick. */
  lemma OnlyRowIsQuiet(db: Db, k: Key, lastMD5: string)
    requires JoinInjective(RowsOf(db.rows, k.ns) + {k})
    ensures Quiet(Seen(db), k.ns, Announced(k, lastMD5)) <==>
            RowsOf(db.rows, k.ns) == {k} && db.rows[k].md5 == lastMD5
  {
    var rows := RowsOf(db.rows, k.ns);
    TickIsQuiet(db, k, lastMD5);
    if Quiet(Seen(db), k.ns, Announced(k, lastMD5)) {
      var j :| j in rows && db.rows[j].md5 == lastMD5;
      forall i | i in rows ensures i == k {
        assert Joined(i) == Joined(k);
      }
      assert rows == {k};
    }
  }

  /** In every run that leaves the row alone, where joined keys are distinct, the next tick reports
      unless the watcher is current and no other row can wake it. */
  lemma NextTickReports(s: State, steps: seq<Step>, k: Key, md5: string -> string)
    requires Hex(md5) && Injective(md5) && Inv(s, k, md5) && !s.phase.Starting? && k in s.db.rows
    requires LeavesAlone(steps, k)
    requires JoinInjective(RowsOf(Run(s, steps, k, md5).db.rows, k.ns))
    ensures var u := Run(s, steps, k, md5);
            Quiet(Seen(u.db), k.ns, Announced(k, u.w.lastMD5)) <==>
            Current(u, k) && RowsOf(u.db.rows, k.ns) == {k}
  {
    var u := Run(s, steps, k, md5);
    RunKeeps(s, steps, k, md5);
    SettledRun(s, steps, k, md5);
    assert RowsOf(u.db.rows, k.ns) + {k} == RowsOf(u.db.rows, k.ns);
    OnlyRowIsQuiet(u.db, k, u.w.lastMD5);
  }

  /** And the report with its fetch then makes the watcher current. */
  lemma ReportConverges(s: State, steps: seq<Step>, k: Key, md5: string -> string)
    requires Hex(md5) && Injective(md5) && Inv(s, k, md5) && !s.phase.Starting? && k in s.db.rows
    requires LeavesAlone(steps, k)
    ensures Current(Run(s, steps + [Report, Fetch(true)], k, md5), k)
  {
    var u := Run(s, steps, k, md5);
    RunKeeps(s, steps, k, md5);
    SettledRun(s, steps, k, md5);
    ReportFetches(u, k, md5);
    RunSplits(s, steps, [Report, Fetch(true)], k, md5);
  }

  lemma ReportFetches(u: State, k: Key, md5: string -> string)
    requires Hex(md5) && Injective(md5) && Inv(u, k, md5) && !u.phase.Starting? && k in u.db.rows
    ensures Current(Run(u, [Report, Fetch(true)], k, md5), k)
  {
    var v := Apply(u, Report, k, md5);
    ReportKeeps(u, k, md5);
    FetchConverges(v, k, md5);
    assert [Report, Fetch(true)][1..] == [Fetch(true)];
    assert [Fetch(true)][1..] == [];
  }
}
