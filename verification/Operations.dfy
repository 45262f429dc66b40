/** Whole Put and Delete operations as runs of single steps. */
module Operations {
  import opened Words
  import opened Grids
  import opened Tables
  import opened Logs
  import opened Disks
  import opened Protocol

  /** Which file operation of a mutation fails, if any. */
  datatype Fault = Fine | SourceAppendFails | FusionAppendFails

  function MutationEvents(op: Op, key: u64, value: u64, fault: Fault): seq<Event> {
    match fault
    case Fine => [Write(op, key, value), Commit, Acknowledge]
    case SourceAppendFails => [WriteFails(op, key, value)]
    case FusionAppendFails => [Write(op, key, value), CommitFails]
  }

  /** What the two logs hold afterwards. */
  function LogsAfter(d: Disk, r: WALRecord, fault: Fault): Disk
    requires r.shard < |d.sources|
  {
    var written := d.(sources := d.sources[r.shard := d.sources[r.shard] + [r]]);
    match fault
    case Fine => written.(fusion := written.fusion + [r])
    case SourceAppendFails => d
    case FusionAppendFails => written
  }

  /** Memory uses up a sequence number in any case, and changes only on success. */
  function MemAfter(m: Mem, r: WALRecord, fault: Fault): Mem
    requires r.shard < |m.tables|
  {
    if fault.Fine? then
      m.(next := m.next + 1, tables := m.tables[r.shard := Apply(m.tables[r.shard], r)], committed := r.sequence)
    else
      m.(next := m.next + 1)
  }

  function Outcome(st: State, m: Mem, r: WALRecord, fault: Fault): State
    requires r.shard < |m.tables| && r.shard < |st.disk.sources|
  {
    st.(disk := LogsAfter(st.disk, r, fault),
        mem := Some(MemAfter(m, r, fault)),
        acked := if fault.Fine? then st.acked + [r] else st.acked)
  }

  lemma RunOne(st: State, e: Event)
    ensures Run(st, [e]) == Step(st, e)
  {
    assert [e][..0] == [];
  }

  lemma RunSnoc(st: State, events: seq<Event>, e: Event)
    requires Run(st, events).Some?
    ensures Run(st, events + [e]) == Step(Run(st, events).value, e)
  {
    assert (events + [e])[..|events|] == events;
  }

  lemma RunMore(st: State, events: seq<Event>, mid: State, e: Event, last: State)
    requires Run(st, events) == Some(mid) && Step(mid, e) == Some(last)
    ensures Run(st, events + [e]) == Some(last)
  {
    RunSnoc(st, events, e);
  }

  lemma RunTwo(st: State, e: Event, f: Event, mid: State)
    requires Step(st, e) == Some(mid)
    ensures Run(st, [e, f]) == Step(mid, f)
  {
    RunOne(st, e);
    RunSnoc(st, [e], f);
    assert [e] + [f] == [e, f];
  }

  lemma RunThree(st: State, e: Event, f: Event, g: Event, mid: State, late: State)
    requires Step(st, e) == Some(mid) && Step(mid, f) == Some(late)
    ensures Run(st, [e, f, g]) == Step(late, g)
  {
    RunTwo(st, e, f, mid);
    RunSnoc(st, [e, f], g);
    assert [e, f] + [g] == [e, f, g];
  }

  lemma WriteStep(st: State, m: Mem, op: Op, key: u64, value: u64)
    requires st.mem == Some(m) && st.phase.Idle? && |st.disk.sources| > 0 && Accepts(m, |st.disk.sources|, op, key)
    ensures var r := RecordOf(m, |st.disk.sources|, op, key, value);
            && r.shard < |m.tables|
            && Step(st, Write(op, key, value)) == Some(AfterWrite(st, m, r))
            && Step(st, WriteFails(op, key, value)) == Some(st.(mem := Some(m.(next := m.next + 1))))
  {
  }

  lemma FinishSteps(st: State, m: Mem, r: WALRecord)
    requires st.mem == Some(m) && r.shard < |st.disk.sources| && r.shard < |m.tables| && st.phase.Idle?
    ensures var written := AfterWrite(st, m, r);
            var persisted := AfterCommit(written, r);
            && Step(written, CommitFails) == Some(Outcome(st, m, r, FusionAppendFails))
            && Step(written, Commit) == Some(persisted)
            && Step(persisted, Acknowledge) == Some(Outcome(st, m, r, Fine))
  {
  }

  /** A mutation with any fault is a run of the protocol and keeps its invariant. */
  lemma MutationRuns(st: State, m: Mem, op: Op, key: u64, value: u64, fault: Fault)
    requires st.mem == Some(m) && st.phase.Idle? && |st.disk.sources| > 0 && Accepts(m, |st.disk.sources|, op, key)
    ensures var r := RecordOf(m, |st.disk.sources|, op, key, value);
            && r.shard < |m.tables|
            && Run(st, MutationEvents(op, key, value, fault)) == Some(Outcome(st, m, r, fault))
  {
    var r := RecordOf(m, |st.disk.sources|, op, key, value);
    var written := AfterWrite(st, m, r);
    WriteStep(st, m, op, key, value);
    FinishSteps(st, m, r);
    RunThree(st, Write(op, key, value), Commit, Acknowledge, written, AfterCommit(written, r));
    RunTwo(st, Write(op, key, value), CommitFails, written);
    RunOne(st, WriteFails(op, key, value));
  }

  // ----- reachable states

  /** Some run over a directory of n fresh logs ends in this state. */
  ghost predicate Reachable(st: State) {
    exists events :: Reaches(events, st)
  }

  ghost predicate Reaches(events: seq<Event>, st: State) {
    Run(Start(|st.disk.sources|), events) == Some(st)
  }

  lemma {:induction false} RunAppend(st: State, a: seq<Event>, b: seq<Event>)
    requires Run(st, a).Some?
    ensures Run(st, a + b) == Run(Run(st, a).value, b)
  {
    if b == [] {
      assert a + b == a;
    } else {
      assert (a + b)[..|a + b| - 1] == a + b[..|b| - 1];
      RunAppend(st, a, b[..|b| - 1]);
    }
  }

  lemma ReachableRun(st: State, events: seq<Event>, st': State)
    requires Reachable(st) && Run(st, events) == Some(st')
    ensures Reachable(st')
  {
    var before :| Reaches(before, st);
    RunAppend(Start(|st.disk.sources|), before, events);
    SameSources(st, events);
    assert Reaches(before + events, st');
  }

  lemma ReachableStart(n: nat)
    ensures Reachable(Start(n))
  {
    assert Reaches([], Start(n));
  }

  /** Reopening whatever a run left succeeds and changes no contents. */
  lemma ReopenSucceeds(st: State)
    requires Reachable(st) && st.mem.None? && |st.disk.sources| >= 2
    ensures st.phase.Idle? && Openable(st.disk) && |Opened(st.disk).tables| == |st.disk.sources|
    ensures var reopened := st.(mem := Some(Opened(st.disk)));
            Run(st, [Reopen]) == Some(reopened) && Reachable(reopened) && Contents(reopened) == Contents(st)
  {
    ReachableSound(st);
    SoundOpens(st.disk);
    RunOne(st, Reopen);
    ReachableRun(st, [Reopen], st.(mem := Some(Opened(st.disk))));
  }

  /** What a database in memory starts from. */
  function NewMem(n: nat): Mem {
    Mem(seq(n, _ => map[]), None, 1, 0, 0, false)
  }

  lemma NewIsReachable(n: nat)
    requires n >= 2
    ensures Reachable(Start(n).(mem := Some(NewMem(n))))
  {
    var d := Start(n).disk;
    NothingRaised(d, n);
    assert Opened(d) == NewMem(n) by {
      assert forall s :: 0 <= s < n ==> OpenedTable(d, s) == map[];
      assert d.sources[..n] == d.sources;
    }
    StartSound(n);
    SoundOpens(d);
    ReachableStart(n);
    RunOne(Start(n), Reopen);
    ReachableRun(Start(n), [Reopen], Start(n).(mem := Some(NewMem(n))));
  }

  lemma {:induction false} NothingRaised(d: Disk, k: nat)
    requires d.current.None? && k <= |d.sources| && forall s :: 0 <= s < |d.sources| ==> d.sources[s] == []
    ensures RaiseSources(0, d.sources[..k]) == 0 && RaiseTails(d, k) == 0
  {
    if k > 0 {
      NothingRaised(d, k - 1);
      assert d.sources[..k][..k - 1] == d.sources[..k - 1];
    }
  }

  lemma ReachableSound(st: State)
    requires Reachable(st) && |st.disk.sources| >= 2
    ensures Inv(st)
  {
    var events :| Reaches(events, st);
    StartSound(|st.disk.sources|);
    RunKeepsInv(Start(|st.disk.sources|), events);
  }

  /** The plain map: every committed operation, applied in order. */
  function Contents(st: State): Table {
    ApplyAll(map[], st.disk.fusion)
  }

  /** Between operations a shard's table is its part of the plain map. */
  lemma TablesArePlainMap(st: State, m: Mem, key: u64)
    requires Reachable(st) && |st.disk.sources| >= 2 && st.mem == Some(m) && st.phase.Idle?
    ensures |m.tables| == |st.disk.sources|
    ensures forall s :: 0 <= s < |m.tables| ==>
              && (key in m.tables[s] <==> key in Contents(st) && Bucket(key, |m.tables|) == s)
              && (key in m.tables[s] ==> m.tables[s][key] == Contents(st)[key])
  {
    ReachableSound(st);
    FusionRouted(st.disk);
    forall s | 0 <= s < |m.tables| ensures
      && (key in m.tables[s] <==> key in Contents(st) && Bucket(key, |m.tables|) == s)
      && (key in m.tables[s] ==> m.tables[s][key] == Contents(st)[key])
    {
      ShardOfWhole(st.disk.fusion, |m.tables|, s, key);
    }
  }

  /** A mutation that succeeds is one update of the plain map; one that fails is none. */
  lemma OutcomeMeaning(st: State, m: Mem, r: WALRecord, fault: Fault)
    requires r.shard < |m.tables| && r.shard < |st.disk.sources|
    ensures Contents(Outcome(st, m, r, fault)) == if fault.Fine? then Apply(Contents(st), r) else Contents(st)
  {
    if fault.Fine? {
      assert (st.disk.fusion + [r])[..|st.disk.fusion|] == st.disk.fusion;
    }
  }

  /** All of it in one: a mutation leads from a reachable state to a reachable
      state and changes the plain map at most once. */
  lemma MutationEnds(st: State, m: Mem, op: Op, key: u64, value: u64, fault: Fault)
    requires Reachable(st) && st.mem == Some(m) && st.phase.Idle?
    requires |st.disk.sources| > 0 && Accepts(m, |st.disk.sources|, op, key)
    ensures var r := RecordOf(m, |st.disk.sources|, op, key, value);
            && r.shard < |m.tables|
            && var after := Outcome(st, m, r, fault);
               && Run(st, MutationEvents(op, key, value, fault)) == Some(after) && Reachable(after)
               && Contents(after) == if fault.Fine? then Apply(Contents(st), r) else Contents(st)
  {
    var r := RecordOf(m, |st.disk.sources|, op, key, value);
    MutationRuns(st, m, op, key, value, fault);
    OutcomeMeaning(st, m, r, fault);
    ReachableRun(st, MutationEvents(op, key, value, fault), Outcome(st, m, r, fault));
  }
}
