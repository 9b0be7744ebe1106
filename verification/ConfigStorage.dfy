/** The configuration table and its history log, changed together in one transaction. */
module ConfigStorage {
  import opened Sequences

  datatype Key = Key(ns: string, group: string, dataId: string)

  datatype Item = Item(content: string, md5: string, kind: string)

  datatype OpType = U | D

  datatype Record = Record(key: Key, content: string, md5: string, op: OpType)

  datatype Db = Db(rows: map<Key, Item>, log: seq<Record>)

  /** Where the database fails inside a transaction, if it does. */
  datatype Fault = NoFault | RowFault | LogFault

  /** The history of one key, newest record first. */
  function NewestFirst(log: seq<Record>, key: Key): seq<Record> {
    if log == [] then []
    else
      var last := log[|log| - 1];
      (if last.key == key then [last] else []) + NewestFirst(log[..|log| - 1], key)
  }

  lemma NewestStep(log: seq<Record>, i: nat, key: Key)
    requires i < |log|
    ensures NewestFirst(log[..i + 1], key) ==
            if log[i].key == key then [log[i]] + NewestFirst(log[..i], key) else NewestFirst(log[..i], key)
  {
    assert log[..i + 1][..i] == log[..i];
  }

  function Min(a: nat, b: nat): nat {
    if a < b then a else b
  }

  /** At most `limit` elements from `offset` on. */
  function Page<T>(s: seq<T>, offset: nat, limit: nat): (page: seq<T>)
    ensures |page| <= limit && (|page| < limit ==> offset + |page| >= |s|)
    ensures page != [] ==> offset + |page| <= |s|
    ensures forall i :: 0 <= i < |page| ==> page[i] == s[offset + i]
  {
    s[Min(offset, |s|)..Min(offset + limit, |s|)]
  }

  /** The pages one after the other make up the whole list. */
  lemma {:induction false} PagesMakeList<T>(s: seq<T>, limit: nat, n: nat)
    ensures Page(s, 0, n * limit) + Page(s, n * limit, limit) == Page(s, 0, (n + 1) * limit)
    ensures n * limit >= |s| ==> Page(s, 0, n * limit) == s
  {
    assert (n + 1) * limit == n * limit + limit;
  }

  /** The positions of the records of a key, the newest first. */
  function Positions(log: seq<Record>, key: Key): seq<nat> {
    if log == [] then []
    else
      var last: nat := |log| - 1;
      (if log[last].key == key then [last] else []) + Positions(log[..last], key)
  }

  lemma {:induction false} PositionsFall(log: seq<Record>, key: Key, i: nat, j: nat)
    requires i < |Positions(log, key)|
    ensures Positions(log, key)[i] < |log|
    ensures i < j < |Positions(log, key)| ==> Positions(log, key)[i] > Positions(log, key)[j]
  {
    if log != [] {
      var before, last: nat := log[..|log| - 1], |log| - 1;
      if log[last].key != key {
        PositionsFall(before, key, i, j);
      } else if i > 0 {
        PositionsFall(before, key, i - 1, if j > 0 then j - 1 else 0);
      } else if 0 < j < |Positions(log, key)| {
        PositionsFall(before, key, j - 1, 0);
      }
    }
  }

  lemma {:induction false} PositionsComplete(log: seq<Record>, key: Key, p: nat)
    ensures p in Positions(log, key) <==> p < |log| && log[p].key == key
  {
    if log != [] {
      PositionsComplete(log[..|log| - 1], key, p);
    }
  }

  lemma {:induction false} ShownAtPositions(log: seq<Record>, key: Key, i: nat)
    ensures |NewestFirst(log, key)| == |Positions(log, key)|
    ensures i < |Positions(log, key)| ==>
              Positions(log, key)[i] < |log| && NewestFirst(log, key)[i] == log[Positions(log, key)[i]]
  {
    if log != [] {
      var before, last := log[..|log| - 1], log[|log| - 1];
      ShownAtPositions(before, key, if last.key == key && i > 0 then i - 1 else i);
    }
  }

  /** The history of a key is all of its records and nothing else, at falling positions of the log. */
  lemma HistoryIsComplete(log: seq<Record>, key: Key) returns (at: seq<nat>)
    ensures forall p: nat :: p in at <==> p < |log| && log[p].key == key
    ensures forall i, j :: 0 <= i < j < |at| ==> at[i] > at[j]
    ensures |at| == |NewestFirst(log, key)|
    ensures forall i :: 0 <= i < |at| ==> at[i] < |log| && NewestFirst(log, key)[i] == log[at[i]]
  {
    at := Positions(log, key);
    ShownAtPositions(log, key, 0);
    forall p: nat ensures p in at <==> p < |log| && log[p].key == key {
      PositionsComplete(log, key, p);
    }
    forall i, j | 0 <= i < j < |at| ensures at[i] > at[j] {
      PositionsFall(log, key, i, j);
    }
    forall i | 0 <= i < |at| ensures at[i] < |log| && NewestFirst(log, key)[i] == log[at[i]] {
      ShownAtPositions(log, key, i);
    }
  }

  /** The query for the rows of one namespace on a state of the table. */
  method SelectKeys(rows: map<Key, Item>, ns: string) returns (list: seq<Key>)
    ensures Distinct(list) && forall k :: k in list <==> k in rows && k.ns == ns
  {
    list := [];
    var left := rows.Keys;
    while left != {}
      invariant left <= rows.Keys
      invariant Distinct(list)
      invariant forall k :: k in list <==> k in rows && k !in left && k.ns == ns
      decreases left
    {
      var k :| k in left;
      if k.ns == ns {
        list := list + [k];
      }
      left := left - {k};
    }
  }

  class ConfigStore {
    var rows: map<Key, Item>
    var log: seq<Record>

    constructor ()
      ensures rows == map[] && log == []
    {
      rows, log := map[], [];
    }

    ghost function State(): Db
      reads this
    {
      Db(rows, log)
    }

    /** Both writes happen, or neither does. */
    method Publish(key: Key, item: Item, history: Record, fault: Fault) returns (ok: bool)
      modifies this
      ensures ok <==> fault.NoFault?
      ensures State() == if ok then Db(old(rows)[key := item], old(log) + [history]) else old(State())
    {
      var before := rows;
      if fault.RowFault? {
        return false;
      }
      rows := rows[key := item];
      if fault.LogFault? {
        rows := before;  // rollback
        return false;
      }
      log := log + [history];
      ok := true;
    }

    method Delete(key: Key, history: Record, fault: Fault) returns (ok: bool)
      modifies this
      ensures ok <==> fault.NoFault?
      ensures State() == if ok then Db(old(rows) - {key}, old(log) + [history]) else old(State())
    {
      var before := rows;
      if fault.RowFault? {
        return false;
      }
      rows := rows - {key};
      if fault.LogFault? {
        rows := before;  // rollback
        return false;
      }
      log := log + [history];
      ok := true;
    }

    /** The keys of the rows of one namespace, each once, in the order the database returns them. */
    method ListAllMD5(ns: string, dbOk: bool) returns (ok: bool, list: seq<Key>)
      ensures ok == dbOk
      ensures if ok then Distinct(list) && forall k :: k in list <==> k in rows && k.ns == ns else list == []
    {
      ok, list := dbOk, [];
      if dbOk {
        list := SelectKeys(rows, ns);
      }
    }

    /** A page of the history of a key, newest first, and how many records the key has. Either of the
        two queries may fail, and then nothing is returned. */
    method History(key: Key, offset: nat, limit: nat, countOk: bool, findOk: bool)
      returns (ok: bool, list: seq<Record>, total: nat)
      ensures ok == (countOk && findOk)
      ensures total == if ok then |NewestFirst(log, key)| else 0
      ensures list == if ok then Page(NewestFirst(log, key), offset, limit) else []
    {
      ok, list, total := countOk && findOk, [], 0;
      if !ok {
        return;
      }
      var all := [];
      var i := |log|;
      assert log[..i] == log;
      while i > 0
        invariant 0 <= i <= |log|
        invariant all + NewestFirst(log[..i], key) == NewestFirst(log, key)
      {
        i := i - 1;
        NewestStep(log, i, key);
        if log[i].key == key {
          assert all + ([log[i]] + NewestFirst(log[..i], key)) == (all + [log[i]]) + NewestFirst(log[..i], key);
          all := all + [log[i]];
        }
      }
      assert all == NewestFirst(log, key);
      total := |all|;
      list := Page(all, offset, limit);
    }
  }

  // ---------- the table is the replay of its log ----------

  /** What a table built only from the log would hold: content and digest per key. */
  function Replay(log: seq<Record>): map<Key, (string, string)> {
    if log == [] then map[]
    else
      var before := Replay(log[..|log| - 1]);
      var r := log[|log| - 1];
      if r.op.U? then before[r.key := (r.content, r.md5)] else before - {r.key}
  }

  ghost predicate Mirrors(db: Db) {
    && db.rows.Keys == Replay(db.log).Keys
    && forall k :: k in db.rows ==> Replay(db.log)[k] == (db.rows[k].content, db.rows[k].md5)
  }

  /** A key survives the replay exactly when its newest record is a U, and with that record's data. */
  lemma {:induction false} ReplayIsNewest(log: seq<Record>, k: Key)
    ensures k in Replay(log) <==> NewestFirst(log, k) != [] && NewestFirst(log, k)[0].op.U?
    ensures k in Replay(log) ==>
              Replay(log)[k] == (NewestFirst(log, k)[0].content, NewestFirst(log, k)[0].md5)
  {
    if log != [] {
      ReplayIsNewest(log[..|log| - 1], k);
    }
  }

  /** A transaction as some service committed it. A removal records whatever its service had read
      before, which another transaction may have overtaken. */
  datatype Tx =
    | Put(key: Key, content: string, kind: string)
    | Remove(key: Key, content: string, md5: string)

  function ApplyTx(db: Db, tx: Tx, md5: string -> string): Db {
    match tx
    case Put(k, c, kind) => Db(db.rows[k := Item(c, md5(c), kind)], db.log + [Record(k, c, md5(c), U)])
    case Remove(k, c, m) => Db(db.rows - {k}, db.log + [Record(k, c, m, D)])
  }

  function Commit(db: Db, txs: seq<Tx>, md5: string -> string): Db
    decreases |txs|
  {
    if txs == [] then db else ApplyTx(Commit(db, txs[..|txs| - 1], md5), txs[|txs| - 1], md5)
  }

  /** What one more transaction of a run does to the two tables. */
  lemma OneMoreTx(db: Db, txs: seq<Tx>, tx: Tx, md5: string -> string)
    ensures var before, after := Commit(db, txs, md5), Commit(db, txs + [tx], md5);
            && (tx.Put? ==>
                  && after.rows == before.rows[tx.key := Item(tx.content, md5(tx.content), tx.kind)]
                  && after.log == before.log + [Record(tx.key, tx.content, md5(tx.content), U)])
            && (tx.Remove? ==>
                  && after.rows == before.rows - {tx.key}
                  && after.log == before.log + [Record(tx.key, tx.content, tx.md5, D)])
  {
    assert (txs + [tx])[..|txs|] == txs;
  }

  ghost predicate Digested(db: Db, md5: string -> string) {
    forall k :: k in db.rows ==> db.rows[k].md5 == md5(db.rows[k].content)
  }

  lemma TxKeeps(db: Db, tx: Tx, md5: string -> string)
    requires Mirrors(db) && Digested(db, md5)
    ensures Mirrors(ApplyTx(db, tx, md5)) && Digested(ApplyTx(db, tx, md5), md5)
  {
    var after := ApplyTx(db, tx, md5);
    assert after.log[..|after.log| - 1] == db.log;
  }

  lemma {:induction false} CommitKeeps(db: Db, txs: seq<Tx>, md5: string -> string)
    requires Mirrors(db) && Digested(db, md5)
    ensures Mirrors(Commit(db, txs, md5)) && Digested(Commit(db, txs, md5), md5)
    decreases |txs|
  {
    if txs != [] {
      CommitKeeps(db, txs[..|txs| - 1], md5);
      TxKeeps(Commit(db, txs[..|txs| - 1], md5), txs[|txs| - 1], md5);
    }
  }

  /** In every run, whatever the interleaving of the services that commit: a row exists with some
      content and digest exactly when the newest record of its key is a U with them, and every
      row's digest is that of its content. */
  lemma {:induction false} TableIsHistory(txs: seq<Tx>, md5: string -> string, k: Key, c: string, m: string)
    ensures var db := Commit(Db(map[], []), txs, md5);
            var h := NewestFirst(db.log, k);
            (k in db.rows && db.rows[k].content == c && db.rows[k].md5 == m <==> h != [] && h[0] == Record(k, c, m, U))
            && (k in db.rows ==> db.rows[k].md5 == md5(db.rows[k].content))
  {
    var db := Commit(Db(map[], []), txs, md5);
    CommitKeeps(Db(map[], []), txs, md5);
    ReplayIsNewest(db.log, k);
    NewestOfKey(db.log, k);
  }

  lemma {:induction false} NewestOfKey(log: seq<Record>, k: Key)
    ensures forall r :: r in NewestFirst(log, k) ==> r.key == k && r in log
  {
    if log != [] {
      NewestOfKey(log[..|log| - 1], k);
    }
  }
}
