/** Publishing and deleting configurations, and the digests a long poll compares. */
module ConfigService {
  import opened ConfigStorage

  const PUBLIC := "public"
  const DEFAULT_GROUP := "DEFAULT_GROUP"
  const DEFAULT_KIND := "text"

  function WithDefault(s: string, default: string): string {
    if s == "" then default else s
  }

  function FullKey(ns: string, group: string, dataId: string): (k: Key)
    ensures k.dataId == dataId
    ensures if ns == "" then k.ns == "public" else k.ns == ns
    ensures if group == "" then k.group == "DEFAULT_GROUP" else k.group == group
  {
    Key(WithDefault(ns, PUBLIC), WithDefault(group, DEFAULT_GROUP), dataId)
  }

  datatype Outcome = Done | DataIdRequired | StoreFailed

  /** Removing `key` by a service that found the rows `seen` when it read them for the record. */
  function Removal(key: Key, seen: map<Key, Item>, md5: string -> string): Tx {
    if key in seen then Remove(key, seen[key].content, seen[key].md5) else Remove(key, "", md5(""))
  }

  class Service {
    const store: ConfigStore
    const md5: string -> string

    constructor (store: ConfigStore, md5: string -> string)
      ensures this.store == store && this.md5 == md5
    {
      this.store, this.md5 := store, md5;
    }

    method PublishConfig(ns: string, group: string, dataId: string, content: string, kind: string, fault: Fault)
      returns (r: Outcome)
      modifies store
      ensures r == if dataId == "" then DataIdRequired else if fault.NoFault? then Done else StoreFailed
      ensures store.State() ==
              if r.Done?
              then ApplyTx(old(store.State()),
                           Put(FullKey(ns, group, dataId), content, WithDefault(kind, DEFAULT_KIND)), md5)
              else old(store.State())
      ensures r.Done? ==>
                var key := FullKey(ns, group, dataId);
                var item := Item(content, md5(content), if kind == "" then "text" else kind);
                && store.rows == old(store.rows)[key := item]
                && store.log == old(store.log) + [Record(key, content, md5(content), U)]
      ensures old(Mirrors(store.State()) && Digested(store.State(), md5)) ==>
                Mirrors(store.State()) && Digested(store.State(), md5)
    {
      if dataId == "" {
        return DataIdRequired;
      }
      var key := FullKey(ns, group, dataId);
      var digest := md5(content);
      var item := Item(content, digest, WithDefault(kind, DEFAULT_KIND));
      ghost var before := store.State();
      var ok := store.Publish(key, item, Record(key, content, digest, U), fault);
      if !ok {
        return StoreFailed;
      }
      r := Done;
      if Mirrors(before) && Digested(before, md5) {
        TxKeeps(before, Put(key, content, WithDefault(kind, DEFAULT_KIND)), md5);
      }
    }

    /** The read before the removal is a separate query; when it fails its error is ignored and the
        record carries the empty content. An absent key is removed and recorded all the same. */
    method DeleteConfig(ns: string, group: string, dataId: string, readOk: bool, fault: Fault)
      returns (r: Outcome)
      modifies store
      ensures r == if fault.NoFault? then Done else StoreFailed
      ensures store.State() ==
              if r.Done?
              then ApplyTx(old(store.State()),
                           Removal(FullKey(ns, group, dataId), if readOk then old(store.rows) else map[], md5), md5)
              else old(store.State())
      ensures r.Done? ==>
                var key := FullKey(ns, group, dataId);
                && store.rows == old(store.rows) - {key}
                && store.log == old(store.log)
                                + [if readOk && key in old(store.rows)
                                   then Record(key, old(store.rows)[key].content, old(store.rows)[key].md5, D)
                                   else Record(key, "", md5(""), D)]
      ensures old(Mirrors(store.State()) && Digested(store.State(), md5)) ==>
                Mirrors(store.State()) && Digested(store.State(), md5)
    {
      var key := FullKey(ns, group, dataId);
      var content, digest := "", md5("");
      if readOk && key in store.rows {
        content, digest := store.rows[key].content, store.rows[key].md5;
      }
      ghost var before := store.State();
      var ok := store.Delete(key, Record(key, content, digest, D), fault);
      if !ok {
        return StoreFailed;
      }
      r := Done;
      if Mirrors(before) && Digested(before, md5) {
        TxKeeps(before, Remove(key, content, digest), md5);
      }
    }

    /** The digests of a namespace under their joined keys. Rows whose joined keys coincide share
        one entry, and the row listed last decides it. */
    method GetAllMD5(ns: string, dbOk: bool) returns (ok: bool, result: Digests)
      ensures ok == dbOk
      ensures if ok then IsDigestMap(result, store.rows, ns) else result == map[]
    {
      var items;
      ok, items := store.ListAllMD5(ns, dbOk);
      result := map[];
      if ok {
        result := CollectMD5(items, store.rows, ns);
      }
    }
  }

  /** Deleting a row and publishing the recorded content again restores the table exactly when the
      service had read the content it removed. Run sequentially, it always had. */
  lemma DeleteThenRepublish(db: Db, seen: map<Key, Item>, k: Key, md5: string -> string)
    requires Digested(db, md5) && k in db.rows
    ensures var gone := ApplyTx(db, Removal(k, seen, md5), md5);
            var back := ApplyTx(gone, Put(k, NewestFirst(gone.log, k)[0].content, db.rows[k].kind), md5);
            back.rows == db.rows <==>
            db.rows[k].content == (if k in seen then seen[k].content else "")
    ensures seen == db.rows ==>
              NewestFirst(ApplyTx(db, Removal(k, seen, md5), md5).log, k)[0] ==
              Record(k, db.rows[k].content, db.rows[k].md5, D)
  {
    var gone := ApplyTx(db, Removal(k, seen, md5), md5);
    var c := NewestFirst(gone.log, k)[0].content;
    var back := ApplyTx(gone, Put(k, c, db.rows[k].kind), md5);
    assert back.rows[k] == Item(c, md5(c), db.rows[k].kind);
    if c == db.rows[k].content {
      assert back.rows[k] == db.rows[k];
      assert back.rows == db.rows;
    }
  }

  // ---------- calls served one after the other ----------

  datatype Call = PublishCall(key: Key, content: string, kind: string) | DeleteCall(key: Key)

  /** Each deletion reads the rows that it then changes. */
  function Serve(calls: seq<Call>, md5: string -> string): Db
    decreases |calls|
  {
    if calls == [] then Db(map[], [])
    else
      var before := Serve(calls[..|calls| - 1], md5);
      match calls[|calls| - 1]
      case PublishCall(k, c, kind) => ApplyTx(before, Put(k, c, kind), md5)
      case DeleteCall(k) => ApplyTx(before, Removal(k, before.rows, md5), md5)
  }

  /** What one more call does: a deletion removes the row and records what it held, if it existed. */
  lemma OneMoreCall(calls: seq<Call>, call: Call, md5: string -> string)
    ensures var before, after := Serve(calls, md5), Serve(calls + [call], md5);
            && (call.PublishCall? ==>
                  && after.rows == before.rows[call.key := Item(call.content, md5(call.content), call.kind)]
                  && after.log == before.log + [Record(call.key, call.content, md5(call.content), U)])
            && (call.DeleteCall? ==>
                  && after.rows == before.rows - {call.key}
                  && after.log == before.log
                                  + [if call.key in before.rows
                                     then Record(call.key, before.rows[call.key].content, before.rows[call.key].md5, D)
                                     else Record(call.key, "", md5(""), D)])
  {
    assert (calls + [call])[..|calls|] == calls;
  }

  lemma {:induction false} ServeKeeps(calls: seq<Call>, md5: string -> string)
    ensures Mirrors(Serve(calls, md5)) && Digested(Serve(calls, md5), md5)
    decreases |calls|
  {
    if calls != [] {
      var before := Serve(calls[..|calls| - 1], md5);
      ServeKeeps(calls[..|calls| - 1], md5);
      match calls[|calls| - 1]
      case PublishCall(k, c, kind) => TxKeeps(before, Put(k, c, kind), md5);
      case DeleteCall(k) => TxKeeps(before, Removal(k, before.rows, md5), md5);
    }
  }

  /** A D record carries content and digest of the key's previous record when that is a U, and the
      empty content otherwise. */
  ghost predicate CarriesDeleted(log: seq<Record>, i: nat, md5: string -> string)
    requires i < |log|
  {
    log[i].op.D? ==>
      var before := NewestFirst(log[..i], log[i].key);
      if before != [] && before[0].op.U?
      then log[i].content == before[0].content && log[i].md5 == before[0].md5
      else log[i].content == "" && log[i].md5 == md5("")
  }

  lemma RemovalCarries(db: Db, k: Key, md5: string -> string)
    requires Mirrors(db)
    ensures CarriesDeleted(ApplyTx(db, Removal(k, db.rows, md5), md5).log, |db.log|, md5)
  {
    ReplayIsNewest(db.log, k);
    assert ApplyTx(db, Removal(k, db.rows, md5), md5).log[..|db.log|] == db.log;
  }

  /** In every run of calls served one after the other every D record carries what it deleted. */
  lemma {:induction false} DeletionsAreRecorded(calls: seq<Call>, md5: string -> string)
    ensures forall i :: 0 <= i < |Serve(calls, md5).log| ==> CarriesDeleted(Serve(calls, md5).log, i, md5)
    decreases |calls|
  {
    if calls != [] {
      var before := Serve(calls[..|calls| - 1], md5);
      var log := Serve(calls, md5).log;
      ServeKeeps(calls[..|calls| - 1], md5);
      DeletionsAreRecorded(calls[..|calls| - 1], md5);
      forall i | 0 <= i < |log| ensures CarriesDeleted(log, i, md5) {
        if i < |before.log| {
          assert CarriesDeleted(before.log, i, md5);
          assert log[..i] == before.log[..i] && log[i] == before.log[i];
        } else if calls[|calls| - 1].DeleteCall? {
          RemovalCarries(before, calls[|calls| - 1].key, md5);
        }
      }
    }
  }

  // ---------- digest maps ----------

  /** Digests under joined keys. */
  type Digests = map<string, string>

  /** The key of a row in the digest map: `namespace#group#dataId`. */
  function Joined(k: Key): string {
    k.ns + "#" + k.group + "#" + k.dataId
  }

  ghost predicate IsDigestMap(m: Digests, rows: map<Key, Item>, ns: string) {
    && (forall k :: k in rows && k.ns == ns ==> Joined(k) in m)
    && (forall s :: s in m ==> exists k :: k in rows && k.ns == ns && Joined(k) == s && m[s] == rows[k].md5)
  }

  /** The map that `GetAllMD5` fills from the listed rows. */
  method CollectMD5(items: seq<Key>, rows: map<Key, Item>, ns: string) returns (result: Digests)
    requires forall k :: k in items <==> k in rows && k.ns == ns
    ensures IsDigestMap(result, rows, ns)
  {
    result := map[];
    for i := 0 to |items|
      invariant forall k :: k in items[..i] ==> Joined(k) in result
      invariant forall s :: s in result ==>
                              exists k :: k in items[..i] && Joined(k) == s && result[s] == rows[k].md5
    {
      assert items[i] in items;
      assert items[..i + 1] == items[..i] + [items[i]];
      ghost var before := result;
      result := result[Joined(items[i]) := rows[items[i]].md5];
      forall s | s in result
        ensures exists k :: k in items[..i + 1] && Joined(k) == s && result[s] == rows[k].md5
      {
        if s == Joined(items[i]) {
          assert items[i] in items[..i + 1];
        } else {
          var k :| k in items[..i] && Joined(k) == s && before[s] == rows[k].md5;
          assert k in items[..i + 1];
        }
      }
    }
    assert items[..|items|] == items;
  }

  ghost function RowsOf(rows: map<Key, Item>, ns: string): set<Key> {
    set k | k in rows && k.ns == ns
  }

  ghost predicate JoinInjective(keys: set<Key>) {
    forall j, k :: j in keys && k in keys && Joined(j) == Joined(k) ==> j == k
  }

  ghost function Images(keys: set<Key>): set<string> {
    set k | k in keys :: Joined(k)
  }

  lemma {:induction false} ImageSize(keys: set<Key>)
    ensures |Images(keys)| <= |keys|
    ensures |Images(keys)| == |keys| <==> JoinInjective(keys)
    decreases |keys|
  {
    if keys != {} {
      var k :| k in keys;
      var rest := keys - {k};
      ImageSize(rest);
      assert Images(keys) == Images(rest) + {Joined(k)};
      if Joined(k) in Images(rest) {
        var j :| j in rest && Joined(j) == Joined(k);
        assert !JoinInjective(keys);
      } else {
        assert JoinInjective(keys) <==> JoinInjective(rest);
      }
    }
  }

  /** The digest map has one entry per row exactly when no two rows join to the same key. */
  lemma OneEntryPerRow(m: Digests, rows: map<Key, Item>, ns: string)
    requires IsDigestMap(m, rows, ns)
    ensures |m| == |RowsOf(rows, ns)| <==> JoinInjective(RowsOf(rows, ns))
    ensures JoinInjective(RowsOf(rows, ns)) ==> forall k :: k in RowsOf(rows, ns) ==> m[Joined(k)] == rows[k].md5
  {
    assert m.Keys == Images(RowsOf(rows, ns));
    ImageSize(RowsOf(rows, ns));
  }

  ghost predicate HashFree(keys: set<Key>) {
    forall k :: k in keys ==> '#' !in k.group
  }

  lemma EntryOfRow(m: Digests, rows: map<Key, Item>, ns: string, k: Key)
    requires IsDigestMap(m, rows, ns) && JoinInjective(RowsOf(rows, ns)) && k in rows && k.ns == ns
    ensures Joined(k) in m && m[Joined(k)] == rows[k].md5
  {
    var j :| j in rows && j.ns == ns && Joined(j) == Joined(k) && m[Joined(k)] == rows[j].md5;
    assert j in RowsOf(rows, ns) && k in RowsOf(rows, ns);
  }

  lemma DigestMapWithin(m: Digests, n: Digests, rows: map<Key, Item>, ns: string)
    requires IsDigestMap(m, rows, ns) && IsDigestMap(n, rows, ns) && JoinInjective(RowsOf(rows, ns))
    ensures forall s :: s in m ==> s in n && n[s] == m[s]
  {
    forall s | s in m ensures s in n && n[s] == m[s] {
      var k :| k in rows && k.ns == ns && Joined(k) == s && m[s] == rows[k].md5;
      EntryOfRow(n, rows, ns, k);
    }
  }

  lemma DigestMapIsUnique(m: Digests, n: Digests, rows: map<Key, Item>, ns: string)
    requires IsDigestMap(m, rows, ns) && IsDigestMap(n, rows, ns) && JoinInjective(RowsOf(rows, ns))
    ensures m == n
  {
    DigestMapWithin(m, n, rows, ns);
    DigestMapWithin(n, m, rows, ns);
  }

  /** Group names without '#' keep the joined keys of a namespace apart. */
  lemma HashFreeJoins(rows: map<Key, Item>, ns: string)
    requires HashFree(RowsOf(rows, ns))
    ensures JoinInjective(RowsOf(rows, ns))
  {
    forall j, k | j in RowsOf(rows, ns) && k in RowsOf(rows, ns) && Joined(j) == Joined(k) ensures j == k {
      JoinSplits(j, k);
    }
  }

  lemma JoinSplits(j: Key, k: Key)
    requires j.ns == k.ns && '#' !in j.group && '#' !in k.group && Joined(j) == Joined(k)
    ensures j == k
  {
    var n := |j.ns| + 1;
    assert Joined(j)[n..] == j.group + "#" + j.dataId;
    assert Joined(k)[n..] == k.group + "#" + k.dataId;
    FirstHash(j.group, j.dataId, k.group, k.dataId);
    FirstHash(k.group, k.dataId, j.group, j.dataId);
    assert j.group == (j.group + "#" + j.dataId)[..|j.group|] == k.group;
    assert j.dataId == (j.group + "#" + j.dataId)[|j.group| + 1..] == k.dataId;
  }

  lemma FirstHash(g: string, d: string, h: string, e: string)
    requires g + "#" + d == h + "#" + e && '#' !in h
    ensures |g| >= |h|
  {
    assert (g + "#" + d)[|g|] == '#';
    forall i | 0 <= i < |h| ensures (h + "#" + e)[i] != '#' {
      assert (h + "#" + e)[i] == h[i] && h[i] in h;
    }
  }

  /** A group name with '#' can hide a row: these two share one entry. */
  lemma JoinedKeysCanCollide()
    ensures Joined(Key("n", "a#b", "c")) == Joined(Key("n", "a", "b#c")) == "n#a#b#c"
    ensures Key("n", "a#b", "c") != Key("n", "a", "b#c")
  {
  }

  // ---------- the long poll ----------

  /** The keys on which client and server disagree, with the server's digest or "" when it has none. */
  function Diff(client: Digests, server: Digests): Digests {
    map s | s in client.Keys + server.Keys && !(s in client && s in server && client[s] == server[s])
      :: if s in server then server[s] else ""
  }

  /** A client that takes over a diff: "" deletes. */
  function Patch(client: Digests, diff: Digests): Digests {
    map s | s in client.Keys + diff.Keys && (s in diff ==> diff[s] != "") :: if s in diff then diff[s] else client[s]
  }

  /** The diff is empty exactly when the maps are equal, and it takes the client to the server
      exactly when no differing server digest is the empty string, as no MD5 is. */
  lemma DiffIsExactPatch(client: Digests, server: Digests)
    ensures Diff(client, server) == map[] <==> client == server
    ensures Patch(client, Diff(client, server)) == server <==>
            forall s :: s in server && server[s] == "" ==> s in client && client[s] == ""
  {
    var diff := Diff(client, server);
    if diff == map[] {
      forall s ensures s in client <==> s in server {
        assert s !in diff;
      }
      forall s | s in client ensures client[s] == server[s] {
        assert s !in diff;
      }
    }
    var patched := Patch(client, diff);
    if forall s :: s in server && server[s] == "" ==> s in client && client[s] == "" {
      assert patched.Keys == server.Keys;
      assert patched == server;
    } else {
      var s :| s in server && server[s] == "" && !(s in client && client[s] == "");
      assert s in diff && s !in patched;
    }
  }

  /** The diff is the least patch: every map that takes the client to the server names its keys. And a
      key is in it exactly when server and client disagree, with what the server has for it. */
  lemma DiffIsLeast(client: Digests, server: Digests, m: Digests)
    ensures Patch(client, m) == server ==> Diff(client, server).Keys <= m.Keys
    ensures forall s :: s in Diff(client, server) <==>
                        if s in server then s !in client || client[s] != server[s] else s in client
    ensures forall s :: s in Diff(client, server) ==>
                          Diff(client, server)[s] == if s in server then server[s] else ""
  {
    if Patch(client, m) == server {
      forall s | s in Diff(client, server) ensures s in m {
        assert s !in m ==> (s in Patch(client, m) <==> s in client);
      }
    }
  }

  /** What a client gets by patching, key by key. */
  lemma PatchedAt(client: Digests, diff: Digests, s: string)
    ensures s in Patch(client, diff) <==> if s in diff then diff[s] != "" else s in client
    ensures s in Patch(client, diff) ==> Patch(client, diff)[s] == if s in diff then diff[s] else client[s]
  {
  }

  /** The map one tick of the poll builds: first the server's keys, then the deletions. */
  method Changed(client: Digests, server: Digests) returns (changed: Digests)
    ensures changed == Diff(client, server)
    ensures forall s :: s in changed <==> if s in server then s !in client || client[s] != server[s] else s in client
    ensures forall s :: s in changed ==> changed[s] == if s in server then server[s] else ""
  {
    changed := map[];
    var left := server.Keys;
    while left != {}
      invariant left <= server.Keys
      invariant changed.Keys == set s | s in server && s !in left && !(s in client && client[s] == server[s])
      invariant forall s :: s in changed ==> changed[s] == server[s]
      decreases left
    {
      var s :| s in left;
      if s !in client || client[s] != server[s] {
        changed := changed[s := server[s]];
      }
      left := left - {s};
    }
    left := client.Keys;
    while left != {}
      invariant left <= client.Keys
      invariant forall s :: s in changed <==>
                            || (s in server && !(s in client && client[s] == server[s]))
                            || (s in client && s !in server && s !in left)
      invariant forall s :: s in changed ==> changed[s] == if s in server then server[s] else ""
      decreases left
    {
      var s :| s in left;
      if s !in server {
        changed := changed[s := ""];
      }
      left := left - {s};
    }
  }

  /** What one tick finds in the database. */
  datatype Tick = Seen(db: Db) | QueryFailed

  datatype Polled = Timeout | Failed | Reported(changed: Digests)

  /** A tick that reports nothing: some digest map of the rows is the client's own. */
  ghost predicate Quiet(tick: Tick, ns: string, client: Digests) {
    tick.Seen? && IsDigestMap(client, tick.db.rows, ns)
  }

  /** The diff against some digest map of the rows, which is not the client's. */
  ghost predicate Differs(changed: Digests, rows: map<Key, Item>, ns: string, client: Digests) {
    exists server :: IsDigestMap(server, rows, ns) && changed == Diff(client, server) && client != server
  }

  /** An answer, key by key: a key that no row has is named with "" exactly when the client announced
      it ... */
  lemma AnswerOnMissing(changed: Digests, rows: map<Key, Item>, ns: string, client: Digests, s: string)
    requires Differs(changed, rows, ns, client)
    requires forall k :: k in rows && k.ns == ns ==> k.ns + "#" + k.group + "#" + k.dataId != s
    ensures s in changed <==> s in client
    ensures s in changed ==> changed[s] == ""
  {
    var server :| IsDigestMap(server, rows, ns) && changed == Diff(client, server) && client != server;
    assert s !in server;
    DiffIsLeast(client, server, map[]);
  }

  /** ... and the key of a row exactly when the client announced another digest than that of such a row,
      or none. */
  lemma AnswerOnPresent(changed: Digests, rows: map<Key, Item>, ns: string, client: Digests, k: Key)
    returns (j: Key)
    requires Differs(changed, rows, ns, client) && k in rows && k.ns == ns
    ensures j in rows && j.ns == ns && Joined(j) == Joined(k)
    ensures Joined(k) in changed <==> !(Joined(k) in client && client[Joined(k)] == rows[j].md5)
    ensures Joined(k) in changed ==> changed[Joined(k)] == rows[j].md5
  {
    var server :| IsDigestMap(server, rows, ns) && changed == Diff(client, server) && client != server;
    j :| j in rows && j.ns == ns && Joined(j) == Joined(k) && server[Joined(k)] == rows[j].md5;
    DiffIsLeast(client, server, map[]);
  }

  /** What one tick computes on the rows it finds. */
  method Compare(ns: string, client: Digests, db: Db) returns (changed: Digests)
    ensures if |changed| == 0 then Quiet(Seen(db), ns, client) else Differs(changed, db.rows, ns, client)
    ensures |changed| > 0 && JoinInjective(RowsOf(db.rows, ns)) ==> !Quiet(Seen(db), ns, client)
  {
    var items := SelectKeys(db.rows, ns);
    var server := CollectMD5(items, db.rows, ns);
    changed := Changed(client, server);
    DiffIsExactPatch(client, server);
    if Quiet(Seen(db), ns, client) && JoinInjective(RowsOf(db.rows, ns)) {
      DigestMapIsUnique(client, server, db.rows, ns);
    }
  }

  /** The poll over the ticks that fire before its deadline, each on the database as it is then. It
      passes over quiet ticks only and reports the first diff it finds. Unless joined keys collide
      the reported tick was not quiet; when they do, the listing order decides what it finds. */
  method LongPoll(ns: string, client: Digests, ticks: seq<Tick>) returns (r: Polled)
    ensures r.Timeout? ==> forall i :: 0 <= i < |ticks| ==> Quiet(ticks[i], ns, client)
    ensures r.Failed? ==>
              exists n :: 0 <= n < |ticks| && ticks[n].QueryFailed?
                          && forall i :: 0 <= i < n ==> Quiet(ticks[i], ns, client)
    ensures r.Reported? ==>
              exists n :: && 0 <= n < |ticks| && ticks[n].Seen? && Differs(r.changed, ticks[n].db.rows, ns, client)
                          && (JoinInjective(RowsOf(ticks[n].db.rows, ns)) ==> !Quiet(ticks[n], ns, client))
                          && forall i :: 0 <= i < n ==> Quiet(ticks[i], ns, client)
  {
    for i := 0 to |ticks|
      invariant forall j :: 0 <= j < i ==> Quiet(ticks[j], ns, client)
    {
      if ticks[i].QueryFailed? {
        return Failed;
      }
      var changed := Compare(ns, client, ticks[i].db);
      if |changed| > 0 {
        return Reported(changed);
      }
    }
    r := Timeout;
  }
}
