/** The time-to-live caches: the sweeping in-memory object used for client results and profiles,
    the lazily deleting Postgres table, and the one map they both refine when driven one call at a
    time. Times are integer milliseconds, ttls whole seconds. */
module TtlCache {
  import opened Common

  datatype Entry<V> = Entry(value: V, expiresAt: int)

  type Entries<V> = map<string, Entry<V>>

  /** The outcome of a get: not tried without a key and a ttl, else the value or nothing. */
  datatype Outcome<V> = Skipped | Miss | Hit(value: V, ttlSeconds: nat)

  predicate Usable(key: string, ttl: int) {
    key != "" && 0 < ttl
  }

  function Fresh<V>(entry: Entry<V>, now: int): bool {
    now < entry.expiresAt
  }

  /** `Math.max(0, Math.ceil(ms / 1000))` of a positive rest. */
  function Remaining<V>(entry: Entry<V>, now: int): nat {
    if entry.expiresAt <= now then 0 else (entry.expiresAt - now + 999) / 1000
  }

  // ----- In memory ---------------------------------------------------------

  function Swept<V>(entries: Entries<V>, now: int): Entries<V> {
    map k | k in entries && Fresh(entries[k], now) :: entries[k]
  }

  /** `get`: sweep at one clock reading, look at the entry at a later one. */
  function Got<V>(entries: Entries<V>, key: string, ttl: int, sweepAt: int, now: int): (Entries<V>, Outcome<V>) {
    if !Usable(key, ttl) then (entries, Skipped)
    else
      var swept := Swept(entries, sweepAt);
      if key !in swept then (swept, Miss)
      else if Fresh(swept[key], now) then (swept, Hit(swept[key].value, Remaining(swept[key], now)))
      else (swept - {key}, Miss)
  }

  function Put<V>(entries: Entries<V>, key: string, value: V, ttl: int, now: int): Entries<V> {
    if Usable(key, ttl) then entries[key := Entry(value, now + ttl * 1000)] else entries
  }

  class MemoryCache<V> {
    var entries: Entries<V>
    var hits: nat
    var misses: nat
    var skipped: nat
    var writes: nat
    var evictions: nat
    ghost var overwrites: nat

    /** Every write is still there, was evicted or was overwritten. */
    ghost predicate Valid()
      reads this
    {
      writes == |entries| + evictions + overwrites
    }

    constructor ()
      ensures Valid() && entries == map[]
      ensures hits == misses == skipped == writes == evictions == overwrites == 0
    {
      entries := map[];
      hits, misses, skipped, writes, evictions, overwrites := 0, 0, 0, 0, 0, 0;
    }

    method Sweep(now: int)
      requires Valid()
      modifies this`entries, this`evictions
      ensures Valid() && entries == Swept(old(entries), now)
    {
      var todo := entries.Keys;
      while todo != {}
        invariant todo <= old(entries).Keys && Valid()
        invariant entries == map k | k in old(entries) && (k in todo || Fresh(old(entries)[k], now)) :: old(entries)[k]
        decreases |todo|
      {
        var k :| k in todo;
        todo := todo - {k};
        if !Fresh(entries[k], now) {
          RemovalCount(entries, k);
          entries := entries - {k};
          evictions := evictions + 1;
        }
      }
    }

    /** Every get is counted once, as a hit, a miss or skipped. */
    method Get(key: string, ttl: int, sweepAt: int, now: int) returns (r: Outcome<V>)
      requires Valid() && sweepAt <= now
      modifies this`entries, this`evictions, this`hits, this`misses, this`skipped
      ensures Valid()
      ensures (entries, r) == Got(old(entries), key, ttl, sweepAt, now)
      ensures hits == old(hits) + (if r.Hit? then 1 else 0)
      ensures misses == old(misses) + (if r.Miss? then 1 else 0)
      ensures skipped == old(skipped) + (if r.Skipped? then 1 else 0)
    {
      if key == "" || ttl <= 0 {
        skipped := skipped + 1;
        return Skipped;
      }
      Sweep(sweepAt);
      if key !in entries || entries[key].expiresAt <= now {
        if key in entries {
          RemovalCount(entries, key);
          entries := entries - {key};
          evictions := evictions + 1;
        }
        misses := misses + 1;
        return Miss;
      }
      hits := hits + 1;
      r := Hit(entries[key].value, Remaining(entries[key], now));
    }

    method Set(key: string, value: V, ttl: int, now: int) returns (expires: Option<int>)
      requires Valid()
      modifies this`entries, this`writes, this`overwrites
      ensures Valid()
      ensures entries == Put(old(entries), key, value, ttl, now)
      ensures expires == if Usable(key, ttl) then Some(now + ttl * 1000) else None
      ensures writes == old(writes) + (if Usable(key, ttl) then 1 else 0)
      ensures overwrites == old(overwrites) + (if Usable(key, ttl) && key in old(entries) then 1 else 0)
    {
      if key == "" || ttl <= 0 { return None; }
      if key in entries { overwrites := overwrites + 1; }
      InsertionCount(entries, key, Entry(value, now + ttl * 1000));
      entries := entries[key := Entry(value, now + ttl * 1000)];
      writes := writes + 1;
      expires := Some(now + ttl * 1000);
    }
  }

  lemma RemovalCount<V>(m: Entries<V>, k: string)
    requires k in m
    ensures |m - {k}| == |m| - 1
  {
    assert (m - {k}).Keys == m.Keys - {k};
  }

  lemma InsertionCount<V>(m: Entries<V>, k: string, e: Entry<V>)
    ensures |m[k := e]| == if k in m then |m| else |m| + 1
  {
    assert m[k := e].Keys == m.Keys + {k};
  }

  // ----- In Postgres, one call at a time -----------------------------------

  /** Select, then delete the row when it has expired; nothing else is swept. */
  function GotLazily<V>(rows: Entries<V>, key: string, ttl: int, now: int): (Entries<V>, Outcome<V>) {
    if !Usable(key, ttl) then (rows, Skipped)
    else if key !in rows then (rows, Miss)
    else if Fresh(rows[key], now) then (rows, Hit(rows[key].value, Remaining(rows[key], now)))
    else (rows - {key}, Miss)
  }

  class PostgresCache<V> {
    var rows: Entries<V>
    var hits: nat
    var misses: nat
    var skipped: nat
    var writes: nat
    var evictions: nat

    constructor ()
      ensures rows == map[] && hits == misses == skipped == writes == evictions == 0
    {
      rows := map[];
      hits, misses, skipped, writes, evictions := 0, 0, 0, 0, 0;
    }

    method Get(key: string, ttl: int, now: int) returns (r: Outcome<V>)
      modifies this`rows, this`evictions, this`hits, this`misses, this`skipped
      ensures (rows, r) == GotLazily(old(rows), key, ttl, now)
      ensures hits == old(hits) + (if r.Hit? then 1 else 0)
      ensures misses == old(misses) + (if r.Miss? then 1 else 0)
      ensures skipped == old(skipped) + (if r.Skipped? then 1 else 0)
      ensures evictions == old(evictions) + (if rows == old(rows) then 0 else 1)
    {
      if key == "" || ttl <= 0 {
        skipped := skipped + 1;
        return Skipped;
      }
      var row := if key in rows then Some(rows[key]) else None;
      if row.None? {
        misses := misses + 1;
        return Miss;
      }
      if row.value.expiresAt <= now {
        rows := rows - {key};
        evictions := evictions + 1;
        misses := misses + 1;
        return Miss;
      }
      hits := hits + 1;
      r := Hit(row.value.value, Remaining(row.value, now));
    }

    method Set(key: string, value: V, ttl: int, now: int) returns (expires: Option<int>)
      modifies this`rows, this`writes
      ensures rows == Put(old(rows), key, value, ttl, now)
      ensures expires == if Usable(key, ttl) then Some(now + ttl * 1000) else None
      ensures writes == old(writes) + (if Usable(key, ttl) then 1 else 0)
    {
      if key == "" || ttl <= 0 { return None; }
      rows := rows[key := Entry(value, now + ttl * 1000)];
      writes := writes + 1;
      expires := Some(now + ttl * 1000);
    }
  }

  // ----- The map that both refine ------------------------------------------

  datatype Op<V> = SetOp(key: string, value: V, ttl: int, at: int) | GetOp(key: string, ttl: int, sweepAt: int, at: int)

  function StartOf<V>(op: Op<V>): int {
    if op.SetOp? then op.at else op.sweepAt
  }

  predicate Timed<V>(ops: seq<Op<V>>, from: int)
    decreases |ops|
  {
    ops == [] ||
    (from <= StartOf(ops[0]) <= ops[0].at && Timed(ops[1..], ops[0].at))
  }

  /** The last effective set of a key among the first `n` operations. */
  function LastSet<V>(ops: seq<Op<V>>, n: nat, key: string): Option<Entry<V>>
    requires n <= |ops|
  {
    if n == 0 then None
    else
      var op := ops[n - 1];
      if op.SetOp? && op.key == key && Usable(op.key, op.ttl) then Some(Entry(op.value, op.at + op.ttl * 1000))
      else LastSet(ops, n - 1, key)
  }

  /** What a get must answer: the value of the last set of the key exactly while it has not expired. */
  function Ideal<V>(last: Option<Entry<V>>, key: string, ttl: int, now: int): Outcome<V> {
    if !Usable(key, ttl) then Skipped
    else if last.Some? && Fresh(last.value, now) then Hit(last.value.value, Remaining(last.value, now))
    else Miss
  }

  function MemoryAfter<V>(ops: seq<Op<V>>, n: nat): Entries<V>
    requires n <= |ops|
  {
    if n == 0 then map[]
    else match ops[n - 1]
      case SetOp(key, value, ttl, at) => Put(MemoryAfter(ops, n - 1), key, value, ttl, at)
      case GetOp(key, ttl, sweepAt, at) => Got(MemoryAfter(ops, n - 1), key, ttl, sweepAt, at).0
  }

  function PostgresAfter<V>(ops: seq<Op<V>>, n: nat): Entries<V>
    requires n <= |ops|
  {
    if n == 0 then map[]
    else match ops[n - 1]
      case SetOp(key, value, ttl, at) => Put(PostgresAfter(ops, n - 1), key, value, ttl, at)
      case GetOp(key, ttl, _, at) => GotLazily(PostgresAfter(ops, n - 1), key, ttl, at).0
  }

  /** An entry is the last set of its key, and what is missing was never set or has expired. */
  predicate Refines<V(==)>(entries: Entries<V>, key: string, last: Option<Entry<V>>, now: int) {
    if key in entries then last == Some(entries[key]) else last.None? || !Fresh(last.value, now)
  }

  lemma TimedAt<V>(ops: seq<Op<V>>, from: int, i: nat)
    requires Timed(ops, from) && i < |ops|
    ensures (if i == 0 then from else ops[i - 1].at) <= StartOf(ops[i]) <= ops[i].at
    decreases |ops|
  {
    if i > 0 { TimedAt(ops[1..], ops[0].at, i - 1); }
  }

  function ClockAfter<V>(ops: seq<Op<V>>, from: int, n: nat): int
    requires n <= |ops|
  {
    if n == 0 then from else ops[n - 1].at
  }

  lemma {:induction false} RefinementKept<V>(ops: seq<Op<V>>, from: int, n: nat, key: string)
    requires Timed(ops, from) && n <= |ops|
    ensures Refines(MemoryAfter(ops, n), key, LastSet(ops, n, key), ClockAfter(ops, from, n))
    ensures Refines(PostgresAfter(ops, n), key, LastSet(ops, n, key), ClockAfter(ops, from, n))
  {
    if n > 0 {
      RefinementKept(ops, from, n - 1, key);
      TimedAt(ops, from, n - 1);
    }
  }

  /** Driven one call at a time, the sweeping and the lazy cache answer every get alike: a hit
      exactly when the last set of that key has not expired, with its value. */
  lemma CachesAgree<V>(ops: seq<Op<V>>, from: int, n: nat)
    requires Timed(ops, from) && n < |ops| && ops[n].GetOp?
    ensures var op := ops[n];
            var ideal := Ideal(LastSet(ops, n, op.key), op.key, op.ttl, op.at);
            && Got(MemoryAfter(ops, n), op.key, op.ttl, op.sweepAt, op.at).1 == ideal
            && GotLazily(PostgresAfter(ops, n), op.key, op.ttl, op.at).1 == ideal
  {
    RefinementKept(ops, from, n, ops[n].key);
    TimedAt(ops, from, n);
  }

  /** The seconds told with a hit are the time to live, rounded up: the entry is gone by then, and not
      a second earlier. */
  lemma RemainingSeconds<V>(entry: Entry<V>, now: int)
    requires Fresh(entry, now)
    ensures !Fresh(entry, now + 1000 * Remaining(entry, now))
    ensures Fresh(entry, now + 1000 * (Remaining(entry, now) - 1))
  {
  }

  /** Operation `i` is the last one before `n` that stores something under the key. */
  predicate Stored<V>(ops: seq<Op<V>>, n: nat, key: string, i: nat)
    requires n <= |ops|
  {
    && i < n && ops[i].SetOp? && ops[i].key == key && key != "" && 0 < ops[i].ttl
    && forall k :: i < k < n ==> !(ops[k].SetOp? && ops[k].key == key && 0 < ops[k].ttl)
  }

  lemma {:induction false} LastSetStored<V>(ops: seq<Op<V>>, n: nat, key: string)
    requires n <= |ops|
    ensures forall i: nat :: Stored(ops, n, key, i) ==>
              LastSet(ops, n, key) == Some(Entry(ops[i].value, ops[i].at + ops[i].ttl * 1000))
    ensures LastSet(ops, n, key).Some? ==> exists i: nat :: Stored(ops, n, key, i)
  {
    if n > 0 {
      LastSetStored(ops, n - 1, key);
      var op := ops[n - 1];
      if op.SetOp? && op.key == key && Usable(op.key, op.ttl) {
        assert Stored(ops, n, key, n - 1);
      } else {
        forall i: nat
          ensures Stored(ops, n, key, i) <==> Stored(ops, n - 1, key, i)
        {
        }
        if LastSet(ops, n, key).Some? {
          var i: nat :| Stored(ops, n - 1, key, i);
          assert Stored(ops, n, key, i);
        }
      }
    }
  }

  /** What both caches answer, from the calls alone: a get without a key or a time to live is skipped; it
      hits with the value last stored, until its time has come, and tells the rest in seconds, rounded
      up; and misses otherwise. */
  lemma GetsTell<V>(ops: seq<Op<V>>, from: int, n: nat)
    requires Timed(ops, from) && n < |ops| && ops[n].GetOp?
    ensures var op := ops[n];
            var answer := Got(MemoryAfter(ops, n), op.key, op.ttl, op.sweepAt, op.at).1;
            && answer == GotLazily(PostgresAfter(ops, n), op.key, op.ttl, op.at).1
            && (answer.Skipped? <==> op.key == "" || op.ttl <= 0)
            && (!answer.Skipped? ==>
                  && (answer.Hit? ==> exists i: nat :: Stored(ops, n, op.key, i))
                  && forall i: nat :: Stored(ops, n, op.key, i) ==>
                       var rest := ops[i].at + 1000 * ops[i].ttl - op.at;
                       && (answer.Hit? <==> 0 < rest)
                       && (answer.Hit? ==> answer.value == ops[i].value && 1000 * (answer.ttlSeconds - 1) < rest <= 1000 * answer.ttlSeconds))
  {
    CachesAgree(ops, from, n);
    LastSetStored(ops, n, ops[n].key);
    hide MemoryAfter, PostgresAfter, LastSet, Got, GotLazily, Stored, Timed;
  }
}
