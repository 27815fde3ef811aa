/** The Postgres cache under any interleaving of the statements of many replicas: a select, the look at
    the clock, and the delete of one get may have statements of others between them. */
module ReplicaCache {
  import opened Common
  import opened TtlCache

  type Pid = nat

  /** A replica between its select and its answer or delete. */
  datatype Reader<V> = Reader(key: string, row: Option<Entry<V>>, deleting: bool)

  datatype Table<V> = Table(rows: Entries<V>, readers: map<Pid, Reader<V>>)

  datatype Statement<V> =
    | Upsert(key: string, value: V, ttl: int, at: int)
    | Select(pid: Pid, key: string)
    | Decide(pid: Pid, at: int)
    | Delete(pid: Pid)

  predicate Enabled<V>(t: Table<V>, s: Statement<V>) {
    match s
    case Upsert(key, _, ttl, _) => Usable(key, ttl)
    case Select(pid, key) => pid !in t.readers && key != ""
    case Decide(pid, _) => pid in t.readers && !t.readers[pid].deleting
    case Delete(pid) => pid in t.readers && t.readers[pid].deleting
  }

  /** What a get answers once it has looked at the clock; when the row has expired it deletes first. */
  function Answer<V>(r: Reader<V>, at: int): Outcome<V> {
    if r.row.Some? && Fresh(r.row.value, at) then Hit(r.row.value.value, Remaining(r.row.value, at)) else Miss
  }

  function Next<V>(t: Table<V>, s: Statement<V>): Table<V> {
    if !Enabled(t, s) then t
    else match s
      case Upsert(key, value, ttl, at) => t.(rows := Put(t.rows, key, value, ttl, at))
      case Select(pid, key) =>
        t.(readers := t.readers[pid := Reader(key, if key in t.rows then Some(t.rows[key]) else None, false)])
      case Decide(pid, at) =>
        var r := t.readers[pid];
        if r.row.Some? && !Fresh(r.row.value, at) then t.(readers := t.readers[pid := r.(deleting := true)])
        else t.(readers := t.readers - {pid})
      case Delete(pid) => Table(t.rows - {t.readers[pid].key}, t.readers - {pid})
  }

  function StateAt<V>(ss: seq<Statement<V>>, n: nat): Table<V>
    requires n <= |ss|
  {
    if n == 0 then Table(map[], map[]) else Next(StateAt(ss, n - 1), ss[n - 1])
  }

  predicate Runs<V>(ss: seq<Statement<V>>) {
    forall i :: 0 <= i < |ss| ==> Enabled(StateAt(ss, i), ss[i])
  }

  /** No replica has looked at the clock after `now`. */
  predicate Clocked<V>(ss: seq<Statement<V>>, n: nat, now: int)
    requires n <= |ss|
  {
    forall i :: 0 <= i < n && ss[i].Decide? ==> ss[i].at <= now
  }

  // ----- What was written last, and what was selected last -----------------

  function LastUpsert<V>(ss: seq<Statement<V>>, n: nat, key: string): (r: Option<nat>)
    requires n <= |ss|
    ensures r.Some? ==> r.value < n && ss[r.value].Upsert? && ss[r.value].key == key
  {
    if n == 0 then None
    else if ss[n - 1].Upsert? && ss[n - 1].key == key then Some(n - 1)
    else LastUpsert(ss, n - 1, key)
  }

  function LastEntry<V>(ss: seq<Statement<V>>, n: nat, key: string): Option<Entry<V>>
    requires n <= |ss|
  {
    var last := LastUpsert(ss, n, key);
    if last.None? then None else Some(Entry(ss[last.value].value, ss[last.value].at + ss[last.value].ttl * 1000))
  }

  function LastSelect<V>(ss: seq<Statement<V>>, n: nat, pid: Pid): (r: Option<nat>)
    requires n <= |ss|
    ensures r.Some? ==> r.value < n && ss[r.value].Select? && ss[r.value].pid == pid
  {
    if n == 0 then None
    else if ss[n - 1].Select? && ss[n - 1].pid == pid then Some(n - 1)
    else LastSelect(ss, n - 1, pid)
  }

  /** Statement `d` deletes the key after its last upsert, on the strength of a select before it. */
  predicate Overtakes<V>(ss: seq<Statement<V>>, n: nat, key: string, d: nat)
    requires d < n <= |ss|
  {
    ss[d].Delete? &&
    var selected, written := LastSelect(ss, d, ss[d].pid), LastUpsert(ss, n, key);
    selected.Some? && written.Some? && ss[selected.value].key == key && selected.value < written.value < d
  }

  predicate Overtaken<V>(ss: seq<Statement<V>>, n: nat, key: string)
    requires n <= |ss|
  {
    exists d :: 0 <= d < n && Overtakes(ss, n, key, d)
  }

  /** The last upsert of the key is still good, and was overtaken by a delete. */
  predicate Lost<V(==)>(ss: seq<Statement<V>>, n: nat, key: string, now: int)
    requires n <= |ss|
  {
    Overtaken(ss, n, key) && LastEntry(ss, n, key).Some? && Fresh(LastEntry(ss, n, key).value, now)
  }

  lemma {:induction false} LastUpsertEarlier<V>(ss: seq<Statement<V>>, m: nat, n: nat, key: string)
    requires m <= n <= |ss| && (LastUpsert(ss, n, key).None? || LastUpsert(ss, n, key).value < m)
    ensures LastUpsert(ss, m, key) == LastUpsert(ss, n, key)
  {
    if m < n { LastUpsertEarlier(ss, m, n - 1, key); }
  }

  // ----- What every statement keeps ----------------------------------------

  /** The row is the last upsert; where a good one is missing, a delete overtook it. */
  predicate RowOk<V(==)>(ss: seq<Statement<V>>, n: nat, key: string, now: int)
    requires n <= |ss|
  {
    var rows, last := StateAt(ss, n).rows, LastEntry(ss, n, key);
    && (key in rows ==> last == Some(rows[key]) && !Overtaken(ss, n, key))
    && (key !in rows && last.Some? && Fresh(last.value, now) ==> Overtaken(ss, n, key))
  }

  /** A reader holds what its select found, and deletes only what has expired. */
  predicate ReaderOk<V(==)>(ss: seq<Statement<V>>, n: nat, pid: Pid, now: int)
    requires n <= |ss|
  {
    pid in StateAt(ss, n).readers ==>
      var r, s := StateAt(ss, n).readers[pid], LastSelect(ss, n, pid);
      && s.Some? && ss[s.value].key == r.key && r.key != ""
      && (r.row.Some? ==> r.key in StateAt(ss, s.value).rows && LastEntry(ss, s.value, r.key) == r.row)
      && (r.row.None? ==> r.key !in StateAt(ss, s.value).rows)
      && (r.deleting ==> r.row.Some? && !Fresh(r.row.value, now))
  }

  ghost predicate Inv<V>(ss: seq<Statement<V>>, n: nat, now: int)
    requires n <= |ss|
  {
    && (forall key :: RowOk(ss, n, key, now))
    && (forall pid :: ReaderOk(ss, n, pid, now))
  }

  lemma ReaderKept<V>(ss: seq<Statement<V>>, n: nat, pid: Pid, now: int)
    requires n < |ss| && Inv(ss, n, now) && Enabled(StateAt(ss, n), ss[n]) && (ss[n].Decide? ==> ss[n].at <= now)
    ensures ReaderOk(ss, n + 1, pid, now)
  {
    assert ReaderOk(ss, n, pid, now);
    if ss[n].Select? { assert RowOk(ss, n, ss[n].key, now); }
    hide Overtaken, LastEntry, RowOk;
  }

  /** A statement that neither writes nor deletes the key changes nothing about it. */
  lemma OthersKeepRow<V>(ss: seq<Statement<V>>, n: nat, key: string, now: int)
    requires n < |ss| && RowOk(ss, n, key, now) && Enabled(StateAt(ss, n), ss[n])
    requires !(ss[n].Upsert? && ss[n].key == key)
    requires ss[n].Delete? ==> StateAt(ss, n).readers[ss[n].pid].key != key
    requires ss[n].Delete? ==> ReaderOk(ss, n, ss[n].pid, now)
    ensures RowOk(ss, n + 1, key, now)
  {
    OvertakenSame(ss, n, key, now);
    hide Overtaken;
  }

  lemma OvertakenSame<V>(ss: seq<Statement<V>>, n: nat, key: string, now: int)
    requires n < |ss| && Enabled(StateAt(ss, n), ss[n])
    requires !(ss[n].Upsert? && ss[n].key == key)
    requires ss[n].Delete? ==> StateAt(ss, n).readers[ss[n].pid].key != key && ReaderOk(ss, n, ss[n].pid, now)
    ensures Overtaken(ss, n + 1, key) == Overtaken(ss, n, key)
  {
    hide StateAt, LastEntry;
    assert LastUpsert(ss, n + 1, key) == LastUpsert(ss, n, key);
    forall d | 0 <= d < n
      ensures Overtakes(ss, n + 1, key, d) == Overtakes(ss, n, key, d)
    {
    }
    assert !Overtakes(ss, n + 1, key, n);
    if Overtaken(ss, n + 1, key) {
      var d :| 0 <= d < n + 1 && Overtakes(ss, n + 1, key, d);
      assert Overtakes(ss, n, key, d);
    }
    if Overtaken(ss, n, key) {
      var d :| 0 <= d < n && Overtakes(ss, n, key, d);
      assert Overtakes(ss, n + 1, key, d);
    }
  }

  lemma UpsertKeepsRow<V>(ss: seq<Statement<V>>, n: nat, now: int)
    requires n < |ss| && ss[n].Upsert? && Enabled(StateAt(ss, n), ss[n])
    ensures RowOk(ss, n + 1, ss[n].key, now)
  {
    assert LastUpsert(ss, n + 1, ss[n].key) == Some(n);
  }

  /** A delete removes a good row only by overtaking its upsert: what the reader selected has expired. */
  lemma DeleteKeepsRow<V>(ss: seq<Statement<V>>, n: nat, now: int)
    requires n < |ss| && ss[n].Delete? && Enabled(StateAt(ss, n), ss[n]) && ReaderOk(ss, n, ss[n].pid, now)
    ensures RowOk(ss, n + 1, StateAt(ss, n).readers[ss[n].pid].key, now)
  {
    var r, s := StateAt(ss, n).readers[ss[n].pid], LastSelect(ss, n, ss[n].pid).value;
    var key := r.key;
    var last := LastEntry(ss, n, key);
    assert LastEntry(ss, n + 1, key) == last && key !in StateAt(ss, n + 1).rows;
    if last.Some? && Fresh(last.value, now) {
      if LastUpsert(ss, n, key).value < s {
        LastUpsertEarlier(ss, s, n, key);
        assert false;
      }
      assert LastUpsert(ss, n + 1, key) == LastUpsert(ss, n, key);
      assert Overtakes(ss, n + 1, key, n);
    }
  }

  lemma InvKept<V>(ss: seq<Statement<V>>, n: nat, now: int)
    requires n < |ss| && Inv(ss, n, now) && Enabled(StateAt(ss, n), ss[n]) && (ss[n].Decide? ==> ss[n].at <= now)
    ensures Inv(ss, n + 1, now)
  {
    hide RowOk, ReaderOk;
    var m := n + 1;
    forall pid
      ensures ReaderOk(ss, m, pid, now)
    {
      ReaderKept(ss, n, pid, now);
    }
    forall key
      ensures RowOk(ss, m, key, now)
    {
      assert RowOk(ss, n, key, now);
      if ss[n].Delete? { assert ReaderOk(ss, n, ss[n].pid, now); }
      if ss[n].Upsert? && ss[n].key == key {
        UpsertKeepsRow(ss, n, now);
      } else if ss[n].Delete? && StateAt(ss, n).readers[ss[n].pid].key == key {
        DeleteKeepsRow(ss, n, now);
      } else {
        OthersKeepRow(ss, n, key, now);
      }
    }
  }

  lemma {:induction false} InvThroughout<V>(ss: seq<Statement<V>>, n: nat, now: int)
    requires n <= |ss| && Runs(ss) && Clocked(ss, n, now)
    ensures Inv(ss, n, now)
  {
    if n > 0 {
      InvThroughout(ss, n - 1, now);
      assert Enabled(StateAt(ss, n - 1), ss[n - 1]);
      InvKept(ss, n - 1, now);
    }
  }

  // ----- When the table is right -------------------------------------------

  /** After any interleaving the row of a key is its last upsert, or that has expired or never happened,
      exactly unless a delete whose replica had selected before a still good last upsert ran after it. */
  lemma TableRefinesIff<V>(ss: seq<Statement<V>>, n: nat, key: string, now: int)
    requires n <= |ss| && Runs(ss) && Clocked(ss, n, now)
    ensures Refines(StateAt(ss, n).rows, key, LastEntry(ss, n, key), now) <==> !Lost(ss, n, key, now)
  {
    InvThroughout(ss, n, now);
    assert RowOk(ss, n, key, now);
    hide StateAt, LastEntry, Overtaken;
  }

  /** Between each select and the delete that follows from it, nobody upserts the key. */
  predicate DeletesUndisturbed<V>(ss: seq<Statement<V>>, n: nat)
    requires n <= |ss|
  {
    forall d, u :: 0 <= u < d < n && ss[d].Delete? && ss[u].Upsert? ==>
      var s := LastSelect(ss, d, ss[d].pid);
      s.Some? && s.value < u ==> ss[u].key != ss[s.value].key
  }

  /** In particular the table is right for every key when deletes are undisturbed. */
  lemma UndisturbedRefines<V>(ss: seq<Statement<V>>, n: nat, key: string, now: int)
    requires n <= |ss| && Runs(ss) && Clocked(ss, n, now) && DeletesUndisturbed(ss, n)
    ensures Refines(StateAt(ss, n).rows, key, LastEntry(ss, n, key), now)
  {
    TableRefinesIff(ss, n, key, now);
    hide Refines, StateAt, LastEntry;
  }

  lemma ClockedEarlier<V>(ss: seq<Statement<V>>, m: nat, n: nat, now: int)
    requires m <= n <= |ss| && Clocked(ss, n, now)
    ensures Clocked(ss, m, now)
  {
  }

  /** A get that decides at `at` answers as the map of last upserts did when it selected, exactly unless
      that upsert had been lost by then. A hit is always the last upsert before the select, unexpired. */
  lemma GetIsRightIff<V>(ss: seq<Statement<V>>, n: nat, pid: Pid, at: int)
    requires n <= |ss| && Runs(ss) && Clocked(ss, n, at) && Enabled(StateAt(ss, n), Decide(pid, at))
    ensures LastSelect(ss, n, pid).Some?
    ensures var s := LastSelect(ss, n, pid).value;
            var key := ss[s].key;
            var answer, ideal := Answer(StateAt(ss, n).readers[pid], at), Ideal(LastEntry(ss, s, key), key, 1, at);
            && (answer == ideal <==> !Lost(ss, s, key, at))
            && (answer.Hit? ==> answer == ideal)
  {
    hide StateAt, LastEntry, Overtaken, Runs, Clocked;
    InvThroughout(ss, n, at);
    assert ReaderOk(ss, n, pid, at);
    var s := LastSelect(ss, n, pid).value;
    ClockedEarlier(ss, s, n, at);
    InvThroughout(ss, s, at);
    assert RowOk(ss, s, ss[s].key, at);
  }

  /** Such a run exists: a replica selects an expired row, another one writes a fresh one, and the late
      delete removes that. */
  lemma FreshRowLost<V>(old_: V, new_: V)
    ensures var ss := [Upsert("k", old_, 1, 0), Select(1, "k"), Decide(1, 2000), Upsert("k", new_, 60, 2000), Delete(1)];
            Runs(ss) && Clocked(ss, 5, 2000) && Lost(ss, 5, "k", 2000) && "k" !in StateAt(ss, 5).rows
  {
    var ss := [Upsert("k", old_, 1, 0), Select(1, "k"), Decide(1, 2000), Upsert("k", new_, 60, 2000), Delete(1)];
    var row := Entry(old_, 1000);
    assert StateAt(ss, 0) == Table(map[], map[]);
    assert StateAt(ss, 1) == Table(map["k" := row], map[]);
    assert StateAt(ss, 2) == Table(map["k" := row], map[1 := Reader("k", Some(row), false)]);
    assert StateAt(ss, 3) == Table(map["k" := row], map[1 := Reader("k", Some(row), true)]);
    assert StateAt(ss, 4) == Table(map["k" := Entry(new_, 62000)], map[1 := Reader("k", Some(row), true)]);
    assert StateAt(ss, 5) == Table(map[], map[]);
    hide StateAt;
    assert LastSelect(ss, 3, 1) == Some(1);
    assert LastSelect(ss, 4, 1) == Some(1);
    assert LastUpsert(ss, 5, "k") == Some(3);
    assert Overtakes(ss, 5, "k", 4);
  }
}
