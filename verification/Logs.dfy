/** Write-ahead log records and what replaying them means (storage/wal.go, db/database.go apply). */
module Logs {
  import opened Words
  import opened Tables

  datatype Op = Put | Delete

  /** Sequence numbers are unbounded here: the 64-bit counter is taken never to wrap. */
  datatype WALRecord = WALRecord(op: Op, sequence: nat, shard: nat, key: u64, value: u64)

  function Apply(m: Table, r: WALRecord): Table {
    if r.op.Put? then With(m, r.key, r.value) else WithoutKey(m, r.key)
  }

  /** Replays a log over a table, oldest record first. */
  function ApplyAll(m: Table, log: seq<WALRecord>): Table {
    if log == [] then m else Apply(ApplyAll(m, log[..|log| - 1]), log[|log| - 1])
  }

  lemma {:induction false} ApplyAppend(m: Table, a: seq<WALRecord>, b: seq<WALRecord>)
    ensures ApplyAll(m, a + b) == ApplyAll(ApplyAll(m, a), b)
  {
    if b == [] {
      assert a + b == a;
    } else {
      assert (a + b)[..|a + b| - 1] == a + b[..|b| - 1];
      ApplyAppend(m, a, b[..|b| - 1]);
    }
  }

  // ----- selecting records

  function Keep(log: seq<WALRecord>, f: WALRecord -> bool): seq<WALRecord> {
    if log == [] then []
    else Keep(log[..|log| - 1], f) + if f(log[|log| - 1]) then [log[|log| - 1]] else []
  }

  function OnShard(s: nat): WALRecord -> bool {
    (r: WALRecord) => r.shard == s
  }

  function UpTo(c: nat): WALRecord -> bool {
    (r: WALRecord) => r.sequence <= c
  }

  /** Later than the checkpoint, and committed: its sequence number is in the fusion log. */
  function CommittedAfter(c: nat, seqs: set<nat>): WALRecord -> bool {
    (r: WALRecord) => r.sequence > c && r.sequence in seqs
  }

  function Seqs(log: seq<WALRecord>): set<nat> {
    set r | r in log :: r.sequence
  }

  /** Sequence numbers strictly increase along the log. */
  ghost predicate InOrder(log: seq<WALRecord>) {
    forall i, j :: 0 <= i < j < |log| ==> log[i].sequence < log[j].sequence
  }

  lemma {:induction false} KeepMembers(log: seq<WALRecord>, f: WALRecord -> bool)
    ensures forall r :: r in Keep(log, f) <==> r in log && f(r)
  {
    if log != [] {
      var init := log[..|log| - 1];
      KeepMembers(init, f);
      assert forall r :: r in log <==> r in init || r == log[|log| - 1];
    }
  }

  lemma {:induction false} KeepInOrder(log: seq<WALRecord>, f: WALRecord -> bool)
    requires InOrder(log)
    ensures InOrder(Keep(log, f))
  {
    if log != [] {
      var init, last := log[..|log| - 1], log[|log| - 1];
      KeepInOrder(init, f);
      KeepMembers(init, f);
      assert forall r :: r in Keep(init, f) ==> r in init && r.sequence < last.sequence;
    }
  }

  lemma KeepStep(log: seq<WALRecord>, r: WALRecord, f: WALRecord -> bool)
    ensures Keep(log + [r], f) == Keep(log, f) + if f(r) then [r] else []
  {
    assert (log + [r])[..|log|] == log;
  }

  /** A log in order is determined by its records. */
  lemma {:induction false} OrderUnique(a: seq<WALRecord>, b: seq<WALRecord>)
    requires InOrder(a) && InOrder(b)
    requires forall r :: r in a <==> r in b
    ensures a == b
  {
    assert a != [] ==> a[0] in b;
    assert b != [] ==> b[0] in a;
    if a != [] && b != [] {
      var x, y := a[|a| - 1], b[|b| - 1];
      assert y in a && x in b;
      var a', b' := a[..|a| - 1], b[..|b| - 1];
      forall r ensures r in a' <==> r in b' {
        assert r in a' <==> r in a && r != x;
        assert r in b' <==> r in b && r != y;
      }
      OrderUnique(a', b');
    }
  }

  /** A log in order is its part up to c followed by the rest. */
  lemma SplitAt(log: seq<WALRecord>, c: nat, rest: seq<WALRecord>)
    requires InOrder(log) && InOrder(rest)
    requires forall r :: r in rest <==> r in log && r.sequence > c
    ensures log == Keep(log, UpTo(c)) + rest
  {
    var first := Keep(log, UpTo(c));
    KeepMembers(log, UpTo(c));
    KeepInOrder(log, UpTo(c));
    OrderUnique(log, first + rest);
  }

  lemma {:induction false} KeepAll(log: seq<WALRecord>, f: WALRecord -> bool)
    requires forall r :: r in log ==> f(r)
    ensures Keep(log, f) == log
  {
    if log != [] {
      KeepAll(log[..|log| - 1], f);
    }
  }

  lemma {:induction false} KeepNone(log: seq<WALRecord>, f: WALRecord -> bool)
    requires forall r :: r in log ==> !f(r)
    ensures Keep(log, f) == []
  {
    if log != [] {
      KeepNone(log[..|log| - 1], f);
    }
  }

  // ----- one table for each shard, or one for all

  /** What shard s holds after the log. */
  function ShardTable(log: seq<WALRecord>, s: nat): Table {
    ApplyAll(map[], Keep(log, OnShard(s)))
  }

  ghost predicate Routed(log: seq<WALRecord>, n: nat) {
    n > 0 && forall r :: r in log ==> r.shard == Bucket(r.key, n)
  }

  lemma ShardTableStep(log: seq<WALRecord>, r: WALRecord, s: nat)
    ensures ShardTable(log + [r], s) == if r.shard == s then Apply(ShardTable(log, s), r) else ShardTable(log, s)
  {
    var kept := Keep(log, OnShard(s));
    KeepStep(log, r, OnShard(s));
    if r.shard == s {
      assert (kept + [r])[..|kept|] == kept;
    } else {
      assert kept + [] == kept;
    }
  }

  /** Replaying shard by shard is replaying the whole log: a shard's table is the
      part of the whole that routes to it. */
  lemma {:induction false} ShardOfWhole(log: seq<WALRecord>, n: nat, s: nat, key: u64)
    requires Routed(log, n) && s < n
    ensures key in ShardTable(log, s) <==> key in ApplyAll(map[], log) && Bucket(key, n) == s
    ensures key in ShardTable(log, s) ==> ShardTable(log, s)[key] == ApplyAll(map[], log)[key]
  {
    if log != [] {
      var init, r := log[..|log| - 1], log[|log| - 1];
      assert r in log && forall x :: x in init ==> x in log;
      ShardOfWhole(init, n, s, key);
      assert log == init + [r];
      ShardTableStep(init, r, s);
    }
  }

  // ----- the highest sequence number

  function Raise(c: nat, log: seq<WALRecord>): nat {
    if log == [] then c
    else
      var m, last := Raise(c, log[..|log| - 1]), log[|log| - 1].sequence;
      if last > m then last else m
  }

  lemma {:induction false} RaiseIsMax(c: nat, log: seq<WALRecord>)
    ensures Raise(c, log) >= c && forall r :: r in log ==> r.sequence <= Raise(c, log)
    ensures Raise(c, log) == c || exists r :: r in log && r.sequence == Raise(c, log)
  {
    if log != [] {
      RaiseIsMax(c, log[..|log| - 1]);
      assert forall r :: r in log <==> r in log[..|log| - 1] || r == log[|log| - 1];
    }
  }
}
