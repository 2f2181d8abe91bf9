/** Counters are incremented by many clients and drained by a scan: each scanned key is read and deleted
    in one command, and its value is handed to `consume`. Nothing counted may be lost or counted twice.
    `others` is what the other clients make of the counters before this client's n-th command. */
module CounterLedger {
  import opened Results
  import opened Seqs
  import opened Text
  import opened Keys

  type Amounts = map<string, int>
  type Others = (nat, Amounts) -> Amounts

  /** An absent counter counts as 0. */
  function At(m: Amounts, k: string): int {
    if k in m then m[k] else 0
  }

  function AddAll(m: Amounts, d: Amounts): Amounts {
    map k | k in m.Keys + d.Keys :: At(m, k) + At(d, k)
  }

  /** What reading `chunk` took from the key `x`. */
  function Taken(chunk: seq<string>, vals: seq<Option<int>>, x: string): int
    requires |chunk| == |vals|
  {
    if chunk == [] then 0
    else (if chunk[0] == x && vals[0].Some? then vals[0].value else 0) + Taken(chunk[1..], vals[1..], x)
  }

  lemma {:induction false} TakenElsewhere(chunk: seq<string>, vals: seq<Option<int>>, x: string)
    requires |chunk| == |vals| && x !in chunk
    ensures Taken(chunk, vals, x) == 0
  {
    if chunk != [] { TakenElsewhere(chunk[1..], vals[1..], x); }
  }

  function SetOf(keys: seq<string>): set<string> {
    set k | k in keys
  }

  lemma SetOfStep(keys: seq<string>)
    requires keys != []
    ensures SetOf(keys) == {keys[0]} + SetOf(keys[1..])
  {
    assert keys == [keys[0]] + keys[1..];
  }

  ghost predicate Distinct(keys: seq<string>) {
    forall i, j :: 0 <= i < j < |keys| ==> keys[i] != keys[j]
  }

  // ----- What the commands do -----

  /** A pipeline of GETDELs from the n-th command on: what is left, and what was read. */
  function Drain(others: Others, n: nat, redis: Amounts, chunk: seq<string>): (r: (Amounts, seq<Option<int>>))
    ensures |r.1| == |chunk|
    decreases |chunk|
  {
    if chunk == [] then (redis, [])
    else
      var now := others(n, redis);
      var rest := Drain(others, n + 1, now - {chunk[0]}, chunk[1..]);
      (rest.0, [if chunk[0] in now then Some(now[chunk[0]]) else None] + rest.1)
  }

  /** Hands one value to `consume`, unless it is zero or its key is not of this counter. */
  function CreditOne(kb: KeyBuilder, name: string, consumed: Amounts, key: string, v: Option<int>): Amounts {
    var id := kb.GetIDFromCounterKey(key, name);
    if v.Some? && v.value != 0 && id.Some? then consumed[id.value := At(consumed, id.value) + v.value] else consumed
  }

  function Credit(kb: KeyBuilder, name: string, consumed: Amounts, chunk: seq<string>, vals: seq<Option<int>>): Amounts
    requires |chunk| == |vals|
    decreases |chunk|
  {
    if chunk == [] then consumed
    else Credit(kb, name, CreditOne(kb, name, consumed, chunk[0], vals[0]), chunk[1..], vals[1..])
  }

  /** What Redis holds, what `consume` was handed by id, and how many commands were sent. */
  datatype Ledger = Ledger(redis: Amounts, consumed: Amounts, commands: nat)

  /** One batch, and whether it succeeds: the pipeline reports an error as soon as one of its keys was absent. */
  function Batch(kb: KeyBuilder, others: Others, name: string, l: Ledger, chunk: seq<string>): (Ledger, bool) {
    if chunk == [] then (l, true)
    else
      var d := Drain(others, l.commands, l.redis, chunk);
      if None in d.1 then (Ledger(d.0, l.consumed, l.commands + |chunk|), false)
      else (Ledger(d.0, Credit(kb, name, l.consumed, chunk, d.1), l.commands + |chunk|), true)
  }

  /** Batch after batch, up to the first that fails. */
  function Scan(kb: KeyBuilder, others: Others, name: string, l: Ledger, scanned: seq<string>, size: nat): (Ledger, bool)
    requires size > 0
    decreases |scanned|
  {
    if |scanned| < size then Batch(kb, others, name, l, scanned)
    else
      var b := Batch(kb, others, name, l, scanned[..size]);
      if b.1 then Scan(kb, others, name, b.0, scanned[size..], size) else b
  }

  /** What remains of a scan gives `whole`. */
  ghost predicate GivesRest(kb: KeyBuilder, others: Others, name: string, whole: (Ledger, bool), l: Ledger, rest: seq<string>, size: nat)
    requires size > 0
  {
    whole == Scan(kb, others, name, l, rest, size)
  }

  lemma NextBatch(kb: KeyBuilder, others: Others, name: string, whole: (Ledger, bool), l: Ledger, keys: seq<string>, later: seq<string>)
    requires keys != [] && GivesRest(kb, others, name, whole, l, keys + later, |keys|)
    ensures var b := Batch(kb, others, name, l, keys);
      if b.1 then GivesRest(kb, others, name, whole, b.0, later, |keys|) else whole == b
  {
    assert (keys + later)[..|keys|] == keys && (keys + later)[|keys|..] == later;
  }

  lemma Buffered(keys: seq<string>, scanned: seq<string>, i: nat)
    requires i < |scanned|
    ensures keys + scanned[i..] == (keys + [scanned[i]]) + scanned[i + 1..]
  {
  }

  lemma LastBatch(kb: KeyBuilder, others: Others, name: string, whole: (Ledger, bool), l: Ledger, rest: seq<string>, size: nat)
    requires size > |rest| && GivesRest(kb, others, name, whole, l, rest, size)
    ensures whole == Batch(kb, others, name, l, rest)
  {
  }

  class CounterCache {
    const kb: KeyBuilder
    const others: Others

    var redis: Amounts
    var consumed: Amounts
    var commands: nat

    function Contents(): Ledger
      reads this
    {
      Ledger(redis, consumed, commands)
    }

    constructor (kb: KeyBuilder, others: Others, redis: Amounts)
      ensures this.kb == kb && this.others == others && Contents() == Ledger(redis, map[], 0)
    {
      this.kb, this.others, this.redis := kb, others, redis;
      consumed, commands := map[], 0;
    }

    method IncrBy(name: string, id: string, delta: int) returns (v: int)
      modifies this`redis
      ensures redis == AddAll(old(redis), map[kb.Counter(name, id) := delta])
      ensures v == At(redis, kb.Counter(name, id))
    {
      var key := kb.Counter(name, id);
      v := At(redis, key) + delta;
      redis := redis[key := v];
      assert redis == AddAll(old(redis), map[key := delta]);
    }

    method GetAndReset(name: string, id: string) returns (v: int)
      modifies this`redis
      ensures v == old(At(redis, kb.Counter(name, id))) && redis == old(redis) - {kb.Counter(name, id)}
    {
      var key := kb.Counter(name, id);
      v := At(redis, key);
      redis := redis - {key};
    }

    /** One GETDEL, after whatever the other clients did before it. */
    method GetDel(k: string) returns (r: Option<int>)
      modifies this`redis, this`commands
      ensures commands == old(commands) + 1
      ensures var now := others(old(commands), old(redis));
              redis == now - {k} && r == if k in now then Some(now[k]) else None
    {
      redis := others(commands, redis);
      commands := commands + 1;
      r := if k in redis then Some(redis[k]) else None;
      redis := redis - {k};
    }

    method GetDelAll(chunk: seq<string>) returns (vals: seq<Option<int>>)
      modifies this`redis, this`commands
      ensures (redis, vals) == Drain(others, old(commands), old(redis), chunk)
      ensures commands == old(commands) + |chunk|
    {
      vals := [];
      ghost var whole := Drain(others, commands, redis, chunk);
      assert chunk[0..] == chunk && [] + whole.1 == whole.1;
      for i := 0 to |chunk|
        invariant |vals| == i && commands == old(commands) + i
        invariant var rest := Drain(others, commands, redis, chunk[i..]); whole == (rest.0, vals + rest.1)
      {
        ghost var tail := chunk[i..];
        assert tail[1..] == chunk[i + 1..] && tail[0] == chunk[i];
        var r := GetDel(chunk[i]);
        Associates(vals, [r], Drain(others, commands, redis, chunk[i + 1..]).1);
        vals := vals + [r];
      }
      assert chunk[|chunk|..] == [] && vals + [] == vals;
    }

    method Consume(name: string, chunk: seq<string>, vals: seq<Option<int>>)
      requires |vals| == |chunk| && None !in vals
      modifies this`consumed
      ensures consumed == Credit(kb, name, old(consumed), chunk, vals)
    {
      for i := 0 to |chunk|
        invariant Credit(kb, name, consumed, chunk[i..], vals[i..]) == Credit(kb, name, old(consumed), chunk, vals)
      {
        assert vals[i] in vals;
        assert chunk[i..][1..] == chunk[i + 1..] && vals[i..][1..] == vals[i + 1..];
        var delta := vals[i].value;
        if delta != 0 {
          var id := kb.GetIDFromCounterKey(chunk[i], name);
          if id.Some? {
            consumed := consumed[id.value := At(consumed, id.value) + delta];
          }
        }
      }
    }

    method Apply(name: string, chunk: seq<string>) returns (ok: bool)
      modifies this
      ensures (Contents(), ok) == Batch(kb, others, name, old(Contents()), chunk)
    {
      if |chunk| == 0 {
        return true;
      }
      var vals := GetDelAll(chunk);
      if None in vals {
        return false;
      }
      Consume(name, chunk, vals);
      return true;
    }

    /** Drains the counter `name` along the keys that SCAN yields, batch by batch. */
    method ScanAndConsume(name: string, scanned: seq<string>, batchSize: int) returns (ok: bool)
      modifies this
      ensures (Contents(), ok) ==
              Scan(kb, others, name, old(Contents()), scanned, if batchSize <= 0 then 500 else batchSize)
    {
      var size := if batchSize <= 0 then 500 else batchSize;
      var keys: seq<string> := [];
      ghost var whole := Scan(kb, others, name, Contents(), scanned, size);
      assert [] + scanned[0..] == scanned;
      for i := 0 to |scanned|
        invariant |keys| < size
        invariant GivesRest(kb, others, name, whole, Contents(), keys + scanned[i..], size)
      {
        Buffered(keys, scanned, i);
        keys := keys + [scanned[i]];
        if |keys| >= size {
          NextBatch(kb, others, name, whole, Contents(), keys, scanned[i + 1..]);
          ok := Apply(name, keys);
          if !ok {
            return;
          }
          keys := [];
          EmptyFirst(scanned[i + 1..]);
        }
      }
      assert keys + scanned[|scanned|..] == keys;
      LastBatch(kb, others, name, whole, Contents(), keys, size);
      ok := Apply(name, keys);
    }
  }

  // ----- Conservation -----

  /** What the other clients change a key by in the course of a pipeline. */
  function Change(others: Others, n: nat, redis: Amounts, chunk: seq<string>, x: string): int
    decreases |chunk|
  {
    if chunk == [] then 0
    else
      var now := others(n, redis);
      At(now, x) - At(redis, x) + Change(others, n + 1, now - {chunk[0]}, chunk[1..], x)
  }

  /** And in the course of a scan, up to the first batch that fails. */
  function ScanChange(kb: KeyBuilder, others: Others, name: string, l: Ledger, scanned: seq<string>, size: nat, x: string): int
    requires size > 0
    decreases |scanned|
  {
    if |scanned| < size then Change(others, l.commands, l.redis, scanned, x)
    else
      var b := Batch(kb, others, name, l, scanned[..size]);
      Change(others, l.commands, l.redis, scanned[..size], x)
      + if b.1 then ScanChange(kb, others, name, b.0, scanned[size..], size, x) else 0
  }

  lemma {:induction false} DrainConserves(others: Others, n: nat, redis: Amounts, chunk: seq<string>, x: string)
    ensures var d := Drain(others, n, redis, chunk);
      At(d.0, x) + Taken(chunk, d.1, x) == At(redis, x) + Change(others, n, redis, chunk, x)
    decreases |chunk|
  {
    if chunk != [] {
      var now := others(n, redis);
      DrainConserves(others, n + 1, now - {chunk[0]}, chunk[1..], x);
      var d := Drain(others, n, redis, chunk);
      assert d.1[1..] == Drain(others, n + 1, now - {chunk[0]}, chunk[1..]).1;
    }
  }

  lemma {:induction false} CreditAdds(kb: KeyBuilder, name: string, consumed: Amounts, chunk: seq<string>, vals: seq<Option<int>>, id: string)
    requires |chunk| == |vals|
    ensures At(Credit(kb, name, consumed, chunk, vals), id) == At(consumed, id) + Taken(chunk, vals, kb.Counter(name, id))
    decreases |chunk|
  {
    if chunk != [] {
      kb.CounterKeyInverts(name, chunk[0], id);
      CreditAdds(kb, name, CreditOne(kb, name, consumed, chunk[0], vals[0]), chunk[1..], vals[1..], id);
    }
  }

  /** What the scan has read from a key without handing it over: what the failing batch took from it. */
  function Lost(kb: KeyBuilder, others: Others, name: string, l: Ledger, scanned: seq<string>, size: nat, x: string): int
    requires size > 0
    decreases |scanned|
  {
    var chunk := if |scanned| < size then scanned else scanned[..size];
    var b := Batch(kb, others, name, l, chunk);
    if !b.1 then Taken(chunk, Drain(others, l.commands, l.redis, chunk).1, x)
    else if |scanned| < size then 0
    else Lost(kb, others, name, b.0, scanned[size..], size, x)
  }

  /** A batch that succeeds credits each id with what it took from the id's key; a batch that fails credits
      nobody and has taken what was read before the failure was known. */
  lemma BatchConserves(kb: KeyBuilder, others: Others, name: string, l: Ledger, chunk: seq<string>, x: string)
    ensures var b := Batch(kb, others, name, l, chunk);
      var taken := Taken(chunk, Drain(others, l.commands, l.redis, chunk).1, x);
      && At(b.0.redis, x) + taken == At(l.redis, x) + Change(others, l.commands, l.redis, chunk, x)
      && (forall id :: x == kb.Counter(name, id) ==> At(b.0.consumed, id) == At(l.consumed, id) + if b.1 then taken else 0)
      && (!b.1 ==> b.0.consumed == l.consumed)
      && (x !in chunk ==> taken == 0)
  {
    var vals := Drain(others, l.commands, l.redis, chunk).1;
    DrainConserves(others, l.commands, l.redis, chunk, x);
    if x !in chunk { TakenElsewhere(chunk, vals, x); }
    forall id | x == kb.Counter(name, id)
      ensures At(Credit(kb, name, l.consumed, chunk, vals), id) == At(l.consumed, id) + Taken(chunk, vals, x)
    {
      CreditAdds(kb, name, l.consumed, chunk, vals, id);
    }
  }

  /** For every id, whatever the other clients do in between: what was handed over, what is left and what a failing
      batch lost account for all there was and all that the others changed. A scan that succeeds loses nothing. */
  lemma {:induction false} ScanConserves(kb: KeyBuilder, others: Others, name: string, l: Ledger, scanned: seq<string>, size: nat, id: string)
    requires size > 0
    ensures var r, x := Scan(kb, others, name, l, scanned, size), kb.Counter(name, id);
      var lost := Lost(kb, others, name, l, scanned, size, x);
      && At(r.0.consumed, id) + At(r.0.redis, x) + lost
         == At(l.consumed, id) + At(l.redis, x) + ScanChange(kb, others, name, l, scanned, size, x)
      && (r.1 ==> lost == 0)
    decreases |scanned|
  {
    var x := kb.Counter(name, id);
    if |scanned| < size {
      BatchConserves(kb, others, name, l, scanned, x);
    } else {
      var b := Batch(kb, others, name, l, scanned[..size]);
      BatchConserves(kb, others, name, l, scanned[..size], x);
      if b.1 {
        ScanConserves(kb, others, name, b.0, scanned[size..], size, id);
      }
    }
  }

  /** A key outside the scan only changes by what the others do to it. */
  lemma {:induction false} ScanLeavesAlone(kb: KeyBuilder, others: Others, name: string, l: Ledger, scanned: seq<string>, size: nat, x: string)
    requires size > 0 && x !in scanned
    ensures var r := Scan(kb, others, name, l, scanned, size);
      At(r.0.redis, x) == At(l.redis, x) + ScanChange(kb, others, name, l, scanned, size, x)
    decreases |scanned|
  {
    if |scanned| < size {
      BatchConserves(kb, others, name, l, scanned, x);
    } else {
      var b := Batch(kb, others, name, l, scanned[..size]);
      BatchConserves(kb, others, name, l, scanned[..size], x);
      if b.1 { ScanLeavesAlone(kb, others, name, b.0, scanned[size..], size, x); }
    }
  }

  // ----- Clients that only count -----

  ghost predicate Counting(others: Others, adds: nat -> Amounts) {
    forall n: nat, r: Amounts {:trigger others(n, r)} :: others(n, r) == AddAll(r, adds(n))
  }

  /** What is added to a key before the commands from `n` up to `m`. */
  function Added(adds: nat -> Amounts, n: nat, m: nat, x: string): int
    requires n <= m
    decreases m - n
  {
    if n == m then 0 else At(adds(n), x) + Added(adds, n + 1, m, x)
  }

  lemma {:induction false} AddedSplits(adds: nat -> Amounts, n: nat, k: nat, m: nat, x: string)
    requires n <= k <= m
    ensures Added(adds, n, m, x) == Added(adds, n, k, x) + Added(adds, k, m, x)
    decreases m - n
  {
    if n < k { AddedSplits(adds, n + 1, k, m, x); }
  }

  lemma {:induction false} CountingChange(others: Others, adds: nat -> Amounts, n: nat, redis: Amounts, chunk: seq<string>, x: string)
    requires Counting(others, adds)
    ensures Change(others, n, redis, chunk, x) == Added(adds, n, n + |chunk|, x)
    decreases |chunk|
  {
    if chunk != [] {
      var now := others(n, redis);
      assert now == AddAll(redis, adds(n));
      CountingChange(others, adds, n + 1, now - {chunk[0]}, chunk[1..], x);
    }
  }

  lemma BatchCounts(kb: KeyBuilder, others: Others, name: string, l: Ledger, chunk: seq<string>)
    ensures Batch(kb, others, name, l, chunk).0.commands == l.commands + |chunk|
  {
  }

  /** Then the change is the sum of what was added while the scan lasted. */
  lemma {:induction false} CountingScan(kb: KeyBuilder, others: Others, adds: nat -> Amounts, name: string, l: Ledger, scanned: seq<string>, size: nat, x: string)
    requires size > 0 && Counting(others, adds)
    ensures var r := Scan(kb, others, name, l, scanned, size);
      && l.commands <= r.0.commands
      && ScanChange(kb, others, name, l, scanned, size, x) == Added(adds, l.commands, r.0.commands, x)
    decreases |scanned|
  {
    if |scanned| < size {
      BatchCounts(kb, others, name, l, scanned);
      CountingChange(others, adds, l.commands, l.redis, scanned, x);
    } else {
      var b := Batch(kb, others, name, l, scanned[..size]);
      BatchCounts(kb, others, name, l, scanned[..size]);
      CountingChange(others, adds, l.commands, l.redis, scanned[..size], x);
      if b.1 {
        CountingScan(kb, others, adds, name, b.0, scanned[size..], size, x);
        AddedSplits(adds, l.commands, b.0.commands, Scan(kb, others, name, l, scanned, size).0.commands, x);
      }
    }
  }

  // ----- When a scan succeeds -----

  ghost predicate AllIn(keys: seq<string>, redis: Amounts) {
    forall k :: k in keys ==> k in redis
  }

  lemma NoneInFirst(v: int, vals: seq<Option<int>>)
    ensures None in [Some(v)] + vals <==> None in vals
  {
  }

  lemma AllInStep(keys: seq<string>, redis: Amounts)
    requires keys != []
    ensures AllIn(keys, redis) <==> keys[0] in redis && AllIn(keys[1..], redis)
  {
    assert keys == [keys[0]] + keys[1..];
  }

  lemma DistinctStep(keys: seq<string>)
    requires keys != []
    ensures Distinct(keys) <==> Distinct(keys[1..]) && keys[0] !in keys[1..]
  {
    if Distinct(keys[1..]) && keys[0] !in keys[1..] {
      forall i, j | 0 <= i < j < |keys| ensures keys[i] != keys[j] {
        assert keys[j] == keys[1..][j - 1] && keys[j] in keys[1..];
      }
    }
  }

  lemma {:induction false} DrainAppend(others: Others, n: nat, redis: Amounts, a: seq<string>, b: seq<string>)
    ensures var d := Drain(others, n, redis, a);
      var e := Drain(others, n + |a|, d.0, b);
      Drain(others, n, redis, a + b) == (e.0, d.1 + e.1)
    decreases |a|
  {
    if a == [] {
      EmptyFirst(b);
      EmptyFirst(Drain(others, n, redis, b).1);
    } else {
      var now := others(n, redis);
      HeadAndTail(a, b);
      DrainAppend(others, n + 1, now - {a[0]}, a[1..], b);
      var d := Drain(others, n + 1, now - {a[0]}, a[1..]);
      Associates([if a[0] in now then Some(now[a[0]]) else None], d.1, Drain(others, n + |a|, d.0, b).1);
    }
  }

  /** Whatever the others do, a scan succeeds exactly if each GETDEL finds its key, as if all its batches were one
      pipeline, and then leaves what that pipeline leaves. */
  lemma {:induction false} ScanIsDrain(kb: KeyBuilder, others: Others, name: string, l: Ledger, scanned: seq<string>, size: nat)
    requires size > 0
    ensures var r, d := Scan(kb, others, name, l, scanned, size), Drain(others, l.commands, l.redis, scanned);
      && (r.1 <==> None !in d.1)
      && (r.1 ==> r.0.redis == d.0 && r.0.commands == l.commands + |scanned|)
    decreases |scanned|
  {
    if |scanned| >= size {
      var chunk, rest := scanned[..size], scanned[size..];
      assert scanned == chunk + rest;
      DrainAppend(others, l.commands, l.redis, chunk, rest);
      var b := Batch(kb, others, name, l, chunk);
      if b.1 { ScanIsDrain(kb, others, name, b.0, rest, size); }
    }
  }

  /** No client removes a key. */
  ghost predicate Growing(others: Others) {
    forall n: nat, r: Amounts {:trigger others(n, r)} :: r.Keys <= others(n, r).Keys
  }

  lemma {:induction false} DrainSucceeds(others: Others, n: nat, redis: Amounts, chunk: seq<string>)
    requires Growing(others) && Distinct(chunk) && AllIn(chunk, redis)
    ensures None !in Drain(others, n, redis, chunk).1
    decreases |chunk|
  {
    if chunk != [] {
      var k, rest, now := chunk[0], chunk[1..], others(n, redis);
      DistinctStep(chunk);
      assert redis.Keys <= now.Keys;
      assert AllIn(rest, now - {k});
      DrainSucceeds(others, n + 1, now - {k}, rest);
      NoneInFirst(now[k], Drain(others, n + 1, now - {k}, rest).1);
    }
  }

  /** Whatever others add, a scan that yields distinct existing keys succeeds. */
  lemma ScanSucceeds(kb: KeyBuilder, others: Others, name: string, l: Ledger, scanned: seq<string>, size: nat)
    requires size > 0 && Growing(others) && Distinct(scanned) && AllIn(scanned, l.redis)
    ensures Scan(kb, others, name, l, scanned, size).1
  {
    DrainSucceeds(others, l.commands, l.redis, scanned);
    ScanIsDrain(kb, others, name, l, scanned, size);
  }

  // ----- A second client that drains -----

  /** Before the n-th command another client takes the keys `taken(n)`. */
  ghost predicate Draining(others: Others, taken: nat -> set<string>) {
    forall n: nat, r: Amounts {:trigger others(n, r)} :: others(n, r) == r - taken(n)
  }

  /** No key is taken before its turn comes, at the command of its position. */
  ghost predicate InTime(taken: nat -> set<string>, n: nat, keys: seq<string>) {
    forall i: nat, c: nat {:trigger keys[i], taken(c)} :: i < |keys| && n <= c <= n + i ==> keys[i] !in taken(c)
  }

  lemma InTimeStep(taken: nat -> set<string>, n: nat, keys: seq<string>)
    requires keys != []
    ensures InTime(taken, n, keys) <==> (forall k :: k in keys ==> k !in taken(n)) && InTime(taken, n + 1, keys[1..])
  {
    var rest := keys[1..];
    if InTime(taken, n, keys) {
      forall k | k in keys ensures k !in taken(n) {
        var i: nat :| i < |keys| && keys[i] == k;
      }
      forall i: nat, c: nat | i < |rest| && n + 1 <= c <= n + 1 + i ensures rest[i] !in taken(c) {
        assert rest[i] == keys[i + 1];
      }
    }
    if (forall k :: k in keys ==> k !in taken(n)) && InTime(taken, n + 1, rest) {
      forall i: nat, c: nat | i < |keys| && n <= c <= n + i ensures keys[i] !in taken(c) {
        if c > n { assert keys[i] == rest[i - 1]; }
      }
    }
  }

  lemma {:induction false} DrainAgainst(others: Others, taken: nat -> set<string>, n: nat, redis: Amounts, chunk: seq<string>)
    requires Draining(others, taken)
    ensures None !in Drain(others, n, redis, chunk).1 <==> Distinct(chunk) && AllIn(chunk, redis) && InTime(taken, n, chunk)
    decreases |chunk|
  {
    if chunk != [] {
      var k, rest, now := chunk[0], chunk[1..], others(n, redis);
      assert now == redis - taken(n);
      DrainAgainst(others, taken, n + 1, now - {k}, rest);
      DistinctStep(chunk);
      AllInStep(chunk, redis);
      InTimeStep(taken, n, chunk);
      AllInWithout(rest, redis, taken(n), k);
      assert forall x :: x in chunk <==> x == k || x in rest;
      if k in now { NoneInFirst(now[k], Drain(others, n + 1, now - {k}, rest).1); }
    }
  }

  lemma AllInWithout(keys: seq<string>, redis: Amounts, gone: set<string>, k: string)
    ensures AllIn(keys, (redis - gone) - {k}) <==>
      AllIn(keys, redis) && k !in keys && forall x :: x in keys ==> x !in gone
  {
  }

  /** Against a second client that drains, a scan succeeds exactly if SCAN yields no key twice and only keys that
      exist, and the other client takes none of them before its turn. */
  lemma ScanAgainstDrainerIff(kb: KeyBuilder, others: Others, taken: nat -> set<string>, name: string, l: Ledger, scanned: seq<string>, size: nat)
    requires size > 0 && Draining(others, taken)
    ensures Scan(kb, others, name, l, scanned, size).1
            <==> Distinct(scanned) && AllIn(scanned, l.redis) && InTime(taken, l.commands, scanned)
  {
    DrainAgainst(others, taken, l.commands, l.redis, scanned);
    ScanIsDrain(kb, others, name, l, scanned, size);
  }

  /** What a pipeline takes from the key at position `i`: all it held, unless the other client came first. */
  lemma {:induction false} TakenAgainst(others: Others, taken: nat -> set<string>, n: nat, redis: Amounts, chunk: seq<string>, i: nat)
    requires Draining(others, taken) && Distinct(chunk) && i < |chunk|
    ensures Taken(chunk, Drain(others, n, redis, chunk).1, chunk[i])
            == if chunk[i] in redis && Untouched(taken, n, i, chunk[i]) then redis[chunk[i]] else 0
    decreases |chunk|
  {
    var k, rest, now := chunk[0], chunk[1..], others(n, redis);
    var later := Drain(others, n + 1, now - {k}, rest);
    assert now == redis - taken(n);
    assert Drain(others, n, redis, chunk).1[1..] == later.1;
    DistinctStep(chunk);
    if i == 0 {
      TakenElsewhere(rest, later.1, k);
    } else {
      assert chunk[i] == rest[i - 1] && rest[i - 1] in rest;
      TakenAgainst(others, taken, n + 1, now - {k}, rest, i - 1);
      UntouchedStep(taken, n, i, chunk[i]);
    }
  }

  /** The other client takes `k` neither before the n-th command nor before one of the next `i`. */
  ghost predicate Untouched(taken: nat -> set<string>, n: nat, i: nat, k: string) {
    forall c: nat {:trigger taken(c)} :: n <= c <= n + i ==> k !in taken(c)
  }

  lemma UntouchedStep(taken: nat -> set<string>, n: nat, i: nat, k: string)
    requires i > 0
    ensures Untouched(taken, n, i, k) <==> k !in taken(n) && Untouched(taken, n + 1, i - 1, k)
  {
  }

  // ----- Nobody else at work -----

  ghost predicate Idle(others: Others) {
    forall n: nat, r: Amounts {:trigger others(n, r)} :: others(n, r) == r
  }

  lemma {:induction false} DrainIdle(others: Others, n: nat, redis: Amounts, chunk: seq<string>)
    requires Idle(others)
    ensures Drain(others, n, redis, chunk).0 == redis - SetOf(chunk)
    ensures None !in Drain(others, n, redis, chunk).1 <==> Distinct(chunk) && AllIn(chunk, redis)
    decreases |chunk|
  {
    if chunk != [] {
      var k, rest := chunk[0], chunk[1..];
      assert others(n, redis) == redis;
      DrainIdle(others, n + 1, redis - {k}, rest);
      DistinctStep(chunk);
      SetOfStep(chunk);
      assert redis - SetOf(chunk) == (redis - {k}) - SetOf(rest);
      AllInWithout(rest, redis, {}, k);
      assert redis - {} == redis;
      AllInStep(chunk, redis);
      if k in redis { NoneInFirst(redis[k], Drain(others, n + 1, redis - {k}, rest).1); }
    }
  }

  lemma {:induction false} NothingChanges(others: Others, n: nat, redis: Amounts, chunk: seq<string>, x: string)
    requires Idle(others)
    ensures Change(others, n, redis, chunk, x) == 0
    decreases |chunk|
  {
    if chunk != [] {
      assert others(n, redis) == redis;
      NothingChanges(others, n + 1, redis - {chunk[0]}, chunk[1..], x);
    }
  }

  lemma {:induction false} ScanChangesNothing(kb: KeyBuilder, others: Others, name: string, l: Ledger, scanned: seq<string>, size: nat, x: string)
    requires size > 0 && Idle(others)
    ensures ScanChange(kb, others, name, l, scanned, size, x) == 0
    decreases |scanned|
  {
    if |scanned| < size {
      NothingChanges(others, l.commands, l.redis, scanned, x);
    } else {
      NothingChanges(others, l.commands, l.redis, scanned[..size], x);
      var b := Batch(kb, others, name, l, scanned[..size]);
      if b.1 { ScanChangesNothing(kb, others, name, b.0, scanned[size..], size, x); }
    }
  }

  lemma TakenIdle(others: Others, n: nat, redis: Amounts, chunk: seq<string>, x: string)
    requires Idle(others)
    ensures Taken(chunk, Drain(others, n, redis, chunk).1, x) == if x in chunk then At(redis, x) else 0
  {
    DrainConserves(others, n, redis, chunk, x);
    DrainIdle(others, n, redis, chunk);
    NothingChanges(others, n, redis, chunk, x);
  }

  function Held(redis: Amounts, scanned: seq<string>, x: string): int {
    if x in scanned then At(redis, x) else 0
  }

  ghost predicate HandedOver(kb: KeyBuilder, name: string, l: Ledger, scanned: seq<string>, consumed: Amounts) {
    forall id :: At(consumed, id) == At(l.consumed, id) + Held(l.redis, scanned, kb.Counter(name, id))
  }

  /** Alone, a scan succeeds exactly if SCAN yields no key twice and only keys that exist; it then leaves none
      of them, and hands over exactly what the counter's own keys among them held. */
  lemma {:induction false} ScanAloneIff(kb: KeyBuilder, others: Others, name: string, l: Ledger, scanned: seq<string>, size: nat)
    requires size > 0 && Idle(others)
    ensures var r := Scan(kb, others, name, l, scanned, size);
      && (r.1 <==> Distinct(scanned) && AllIn(scanned, l.redis))
      && (r.1 ==> r.0.redis == l.redis - SetOf(scanned))
      && (r.1 ==> HandedOver(kb, name, l, scanned, r.0.consumed))
  {
    var r := Scan(kb, others, name, l, scanned, size);
    ScanIsDrain(kb, others, name, l, scanned, size);
    DrainIdle(others, l.commands, l.redis, scanned);
    if r.1 {
      forall id ensures At(r.0.consumed, id) == At(l.consumed, id) + Held(l.redis, scanned, kb.Counter(name, id)) {
        ScanConserves(kb, others, name, l, scanned, size, id);
        ScanChangesNothing(kb, others, name, l, scanned, size, kb.Counter(name, id));
      }
    }
  }

  /** A key that SCAN yields twice within a batch makes the batch fail, and all that the key held is lost. */
  lemma TwiceIsLost(kb: KeyBuilder, others: Others, name: string, l: Ledger, k: string, size: nat)
    requires size >= 2 && Idle(others) && k in l.redis
    ensures var r := Scan(kb, others, name, l, [k, k], size);
      && !r.1 && r.0.redis == l.redis - {k} && r.0.consumed == l.consumed
      && Lost(kb, others, name, l, [k, k], size, k) == l.redis[k]
  {
    assert [k, k][..2] == [k, k];
    assert !Distinct([k, k]) by { assert [k, k][0] == [k, k][1]; }
    DrainIdle(others, l.commands, l.redis, [k, k]);
    TakenIdle(others, l.commands, l.redis, [k, k], k);
    assert SetOf([k, k]) == {k};
  }

  /** When another client takes a key of a batch before its turn, the batch hands over nothing, and what the other
      keys held is lost. */
  lemma StolenKeyLosesRest(kb: KeyBuilder, others: Others, taken: nat -> set<string>, name: string, l: Ledger, chunk: seq<string>, size: nat, i: nat)
    requires |chunk| < size && Draining(others, taken) && Distinct(chunk) && AllIn(chunk, l.redis)
    requires !InTime(taken, l.commands, chunk) && i < |chunk|
    ensures var r := Scan(kb, others, name, l, chunk, size);
      && !r.1 && r.0.consumed == l.consumed
      && Lost(kb, others, name, l, chunk, size, chunk[i]) ==
           if Untouched(taken, l.commands, i, chunk[i]) then l.redis[chunk[i]] else 0
  {
    ScanAgainstDrainerIff(kb, others, taken, name, l, chunk, size);
    TakenAgainst(others, taken, l.commands, l.redis, chunk, i);
    assert chunk[i] in chunk;
  }

  // ----- Which counters a scan drains -----

  /** SCAN has yielded the keys that match the counter's pattern, each once. */
  ghost predicate FullScan(kb: KeyBuilder, name: string, redis: Amounts, scanned: seq<string>) {
    Distinct(scanned) && forall k :: k in scanned <==> k in redis && kb.CounterMatches(name, k)
  }

  /** A full scan, alone, empties the counter and hands all of it over; and it empties another counter exactly
      if that counter's name extends this one's and a colon, whose values are then handed to nobody. */
  lemma DrainedIff(kb: KeyBuilder, others: Others, name: string, other: string, id: string, l: Ledger, scanned: seq<string>, size: nat)
    requires size > 0 && Idle(others) && FullScan(kb, name, l.redis, scanned)
    requires '{' !in name && '{' !in other && kb.Counter(other, id) in l.redis
    ensures var r := Scan(kb, others, name, l, scanned, size);
      && r.1
      && (kb.Counter(other, id) !in r.0.redis <==> other == name || HasPrefix(other, name + ":"))
      && (forall i :: At(r.0.consumed, i) == At(l.consumed, i) + At(l.redis, kb.Counter(name, i)))
      && (other != name ==> forall i :: kb.Counter(other, id) != kb.Counter(name, i))
  {
    ScanAloneIff(kb, others, name, l, scanned, size);
    kb.CaughtIff(name, other, id);
    forall i ensures kb.CounterMatches(name, kb.Counter(name, i)) { OwnKeysMatch(kb, name, i); }
    if other != name {
      forall i ensures kb.Counter(other, id) != kb.Counter(name, i) { kb.OtherNameOtherKey(name, other, id, i); }
    }
  }

  lemma OwnKeysMatch(kb: KeyBuilder, name: string, i: string)
    ensures kb.CounterMatches(name, kb.Counter(name, i))
  {
    var head := kb.RealPrefix(":counter") + ":" + name + ":";
    assert kb.Counter(name, i) == head + ("{" + i + "}");
  }
}
