/** Any sequence of requests to a database, over any number of openings of its
    directory: the caller sees a plain map. */
module Sessions {
  import opened Words
  import opened Grids
  import opened Tables
  import opened Protocol
  import opened Operations
  import opened Publishing
  import DB = Databases

  datatype Request =
    | Put(key: u64, value: u64, fault: Fault)
    | Delete(key: u64, fault: Fault)
    | Crash(id: int)
    | Recover(id: int)
    | Snapshot(works: nat -> bool)

  /** What a request that was answered with success, or not, does to the plain map. */
  function AfterRequest(m: Table, q: Request, done: bool): Table {
    if done && q.Put? then With(m, q.key, q.value)
    else if done && q.Delete? then WithoutKey(m, q.key)
    else m
  }

  function AfterRequests(m: Table, requests: seq<Request>, done: seq<bool>): Table
    requires |requests| == |done|
  {
    if requests == [] then m
    else
      var last := |requests| - 1;
      AfterRequest(AfterRequests(m, requests[..last], done[..last]), requests[last], done[last])
  }

  /** An answer for every request. */
  ghost predicate Answered(sessions: seq<seq<Request>>, done: seq<seq<bool>>) {
    |sessions| == |done| && forall i :: 0 <= i < |sessions| ==> |sessions[i]| == |done[i]|
  }

  /** One session after another. */
  ghost function AfterSessions(m: Table, sessions: seq<seq<Request>>, done: seq<seq<bool>>): Table
    requires Answered(sessions, done)
  {
    if sessions == [] then m
    else
      var last := |sessions| - 1;
      AfterRequests(AfterSessions(m, sessions[..last], done[..last]), sessions[last], done[last])
  }

  method Serve(db: DB.Database, q: Request) returns (done: bool, ghost events: seq<Event>)
    requires db.Valid()
    modifies db, db.shards, db.dir, db.fusion, db.fusion.buckets, db.fusion.nodes
    ensures db.Valid() && db.NodesGrown()
    ensures Run(old(db.state), events) == Some(db.state)
    ensures Contents(db.state) == AfterRequest(Contents(old(db.state)), q, done)
  {
    var r;
    match q
    case Put(key, value, fault) =>
      r, events := db.Put(key, value, fault);
      done := r.Done?;
    case Delete(key, fault) =>
      r, events := db.Delete(key, fault);
      done := r.Done?;
    case Crash(id) =>
      r, events := db.CrashShard(id);
      done := r.Done?;
    case Recover(id) =>
      r, events := db.RecoverShard(id);
      done := r.Done?;
    case Snapshot(works) =>
      r, events := db.Snapshot(works);
      done := r.Done?;
  }

  /** The contents are the plain map after the requests that succeeded, whatever failed and was lost in between. */
  method ServeAll(db: DB.Database, requests: seq<Request>) returns (done: seq<bool>, ghost events: seq<Event>)
    requires db.Valid()
    modifies db, db.shards, db.dir, db.fusion, db.fusion.buckets, db.fusion.nodes
    ensures db.Valid() && db.NodesGrown()
    ensures Run(old(db.state), events) == Some(db.state)
    ensures |done| == |requests|
    ensures Contents(db.state) == AfterRequests(Contents(old(db.state)), requests, done)
  {
    done, events := [], [];
    for i := 0 to |requests|
      invariant db.Valid() && db.NodesGrown()
      invariant Run(old(db.state), events) == Some(db.state)
      invariant |done| == i
      invariant Contents(db.state) == AfterRequests(Contents(old(db.state)), requests[..i], done)
    {
      ghost var before := db.state;
      var ok, more := Serve(db, requests[i]);
      RunAppend(old(db.state), events, more);
      assert requests[..i + 1][..i] == requests[..i] && (done + [ok])[..i] == done;
      done, events := done + [ok], events + more;
    }
    assert requests[..|requests|] == requests;
  }

  /** A directory through any number of sessions, each of which ends with the loss of the
      process: every opening succeeds, and what is found in the end is the plain map
      after the requests that succeeded. */
  method Lives(dir: Directory, n: nat, sessions: seq<seq<Request>>)
    returns (done: seq<seq<bool>>, records: seq<KVRecord>)
    requires n >= 2 && dir.disk == Start(n).disk
    modifies dir
    ensures Answered(sessions, done)
    ensures records == Listing(AfterSessions(map[], sessions, done))
  {
    done := [];
    ghost var st := Start(n);
    ReachableStart(n);
    for i := 0 to |sessions|
      invariant DB.Left(st) && st.disk == dir.disk
      invariant Answered(sessions[..i], done)
      invariant Contents(st) == AfterSessions(map[], sessions[..i], done)
    {
      var answers;
      answers, st := Live(dir, sessions[i], st);
      OneMoreSession(map[], sessions[..i], done, sessions[i], answers);
      assert sessions[..i + 1] == sessions[..i] + [sessions[i]];
      done := done + [answers];
    }
    assert sessions[..|sessions|] == sessions;
    records := FindAll(dir, st);
  }

  lemma OneMoreSession(m: Table, sessions: seq<seq<Request>>, done: seq<seq<bool>>, requests: seq<Request>,
                       answers: seq<bool>)
    requires Answered(sessions, done) && |answers| == |requests|
    ensures Answered(sessions + [requests], done + [answers])
    ensures AfterSessions(m, sessions + [requests], done + [answers]) ==
            AfterRequests(AfterSessions(m, sessions, done), requests, answers)
  {
    assert (sessions + [requests])[..|sessions|] == sessions && (done + [answers])[..|done|] == done;
  }

  // What is found when the directory is opened once more.
  method FindAll(dir: Directory, ghost st: State) returns (records: seq<KVRecord>)
    requires DB.Left(st) && st.disk == dir.disk
    ensures records == Listing(Contents(st))
  {
    var reply := DB.Open(dir, st);
    var found := reply.value.Scan();
    records := found.value;
  }

  // One session: the directory is opened and used, and then the process is gone.
  method Live(dir: Directory, requests: seq<Request>, ghost st: State)
    returns (done: seq<bool>, ghost after: State)
    requires DB.Left(st) && st.disk == dir.disk
    modifies dir
    ensures DB.Left(after) && after.disk == dir.disk
    ensures |done| == |requests| && Contents(after) == AfterRequests(Contents(st), requests, done)
  {
    var reply := DB.Open(dir, st);
    var db := reply.value;
    ghost var events;
    done, events := ServeAll(db, requests);
    after := AfterCrash(db.state);
    ProcessGone(db.state);
  }

  lemma ProcessGone(st: State)
    requires Reachable(st) && st.mem.Some?
    ensures var after := AfterCrash(st);
            Reachable(after) && after.mem.None? && after.disk == st.disk && Contents(after) == Contents(st)
  {
    RunOne(st, ProcessCrash);
    ReachableRun(st, [ProcessCrash], AfterCrash(st));
  }
}
