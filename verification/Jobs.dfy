// The background job table (src/features/service/jobs.rs).
module Jobs {
  import opened Bytes
  import opened Io

  const JOB_MAX: nat := 16

  datatype Job = Job(id: nat, pid: int, running: bool)

  datatype State = State(jobs: seq<Job>, nextId: nat)

  // ----- The table as a list -----

  // First position whose job satisfies the test, or |jobs|.
  function IndexOfId(jobs: seq<Job>, id: nat): (i: nat)
    ensures i <= |jobs| && (i < |jobs| ==> jobs[i].id == id)
    ensures forall k :: 0 <= k < i ==> jobs[k].id != id
  {
    if jobs == [] || jobs[0].id == id then 0 else 1 + IndexOfId(jobs[1..], id)
  }

  function IndexOfPid(jobs: seq<Job>, pid: int): (i: nat)
    ensures i <= |jobs| && (i < |jobs| ==> jobs[i].pid == pid)
    ensures forall k :: 0 <= k < i ==> jobs[k].pid != pid
  {
    if jobs == [] || jobs[0].pid == pid then 0 else 1 + IndexOfPid(jobs[1..], pid)
  }

  function Without(jobs: seq<Job>, i: nat): seq<Job> {
    if i < |jobs| then jobs[..i] + jobs[i + 1..] else jobs
  }

  // Adding assigns the next id; a full table gives 0. The counter wraps.
  function Add(s: State, pid: int): (State, nat) {
    if |s.jobs| >= JOB_MAX then (s, 0)
    else (State(s.jobs + [Job(s.nextId, pid, true)], (s.nextId + 1) % U64_LIMIT), s.nextId)
  }

  function Lookup(jobs: seq<Job>, id: nat): Option<Job> {
    var i := IndexOfId(jobs, id);
    if i < |jobs| then Some(jobs[i]) else None
  }

  function Mark(jobs: seq<Job>, id: nat, running: bool): seq<Job> {
    var i := IndexOfId(jobs, id);
    if i < |jobs| then jobs[i := jobs[i].(running := running)] else jobs
  }

  // One round of reaping for every finished process, up to the first non-positive answer.
  function Reaped(jobs: seq<Job>, waits: seq<int>): seq<Job>
    decreases |waits|
  {
    if waits == [] || waits[0] <= 0 then jobs
    else Reaped(Without(jobs, IndexOfPid(jobs, waits[0])), waits[1..])
  }

  datatype Op = AddOp(pid: int) | RemoveOp(id: nat) | MarkOp(id: nat, running: bool) | ReapOp(waits: seq<int>)

  function Apply(s: State, op: Op): State {
    match op
    case AddOp(pid) => Add(s, pid).0
    case RemoveOp(id) => s.(jobs := Without(s.jobs, IndexOfId(s.jobs, id)))
    case MarkOp(id, running) => s.(jobs := Mark(s.jobs, id, running))
    case ReapOp(waits) => s.(jobs := Reaped(s.jobs, waits))
  }

  function ApplyAll(s: State, ops: seq<Op>): State
    decreases |ops|
  {
    if ops == [] then s else ApplyAll(Apply(s, ops[0]), ops[1..])
  }

  // ----- Ids -----

  ghost predicate Ordered(s: State) {
    && (forall i, j :: 0 <= i < j < |s.jobs| ==> s.jobs[i].id < s.jobs[j].id)
    && (forall i :: 0 <= i < |s.jobs| ==> 0 < s.jobs[i].id < s.nextId)
    && 0 < s.nextId < U64_LIMIT && |s.jobs| <= JOB_MAX
  }

  lemma WithoutOrdered(s: State, i: nat)
    requires Ordered(s)
    ensures Ordered(s.(jobs := Without(s.jobs, i)))
  {
  }

  // Adding keeps the order exactly until the counter wraps.
  lemma AddOrdered(s: State, pid: int)
    requires Ordered(s)
    ensures Ordered(Add(s, pid).0) <==> |s.jobs| >= JOB_MAX || s.nextId + 1 < U64_LIMIT
  {
  }

  lemma {:induction false} ReapedOrdered(s: State, waits: seq<int>)
    requires Ordered(s)
    ensures Ordered(s.(jobs := Reaped(s.jobs, waits)))
    decreases |waits|
  {
    if waits != [] && waits[0] > 0 {
      var i := IndexOfPid(s.jobs, waits[0]);
      WithoutOrdered(s, i);
      ReapedOrdered(s.(jobs := Without(s.jobs, i)), waits[1..]);
    }
  }

  // Over whole runs that do not use up the counter, ids stay strictly increasing, non-zero
  // and below the next id.
  lemma {:induction false} RunsKeepOrder(s: State, ops: seq<Op>)
    requires Ordered(s) && s.nextId + |ops| < U64_LIMIT
    ensures Ordered(ApplyAll(s, ops))
    decreases |ops|
  {
    if ops != [] {
      ApplyKeepsOrder(s, ops[0]);
      RunsKeepOrder(Apply(s, ops[0]), ops[1..]);
    }
  }

  lemma ApplyKeepsOrder(s: State, op: Op)
    requires Ordered(s) && s.nextId + 1 < U64_LIMIT
    ensures Ordered(Apply(s, op)) && Apply(s, op).nextId <= s.nextId + 1
  {
    match op
    case AddOp(pid) => AddOrdered(s, pid);
    case RemoveOp(id) => WithoutOrdered(s, IndexOfId(s.jobs, id));
    case MarkOp(id, running) =>
    case ReapOp(waits) => ReapedOrdered(s, waits);
  }

  // Every listed job is found again by typing the id that the listing shows.
  lemma ListedIdFindsJob(s: State, i: nat)
    requires Ordered(s) && i < |s.jobs|
    ensures JobId([PERCENT] + Decimal(s.jobs[i].id)) == s.jobs[i].id
    ensures s.jobs[i].id != 0 && Lookup(s.jobs, s.jobs[i].id) == Some(s.jobs[i])
  {
    JobIdRoundTrip(s.jobs[i].id);
  }

  // A new job is found under the id returned, with its process and running, and every other
  // id finds what it did; a table of 16 takes no more.
  lemma AddFinds(s: State, pid: int, other: nat)
    requires Ordered(s)
    ensures var (now, id) := Add(s, pid);
            if |s.jobs| == 16 then now == s && id == 0
            else
              && id != 0 && Lookup(s.jobs, id) == None
              && Lookup(now.jobs, other) == if other == id then Some(Job(id, pid, true)) else Lookup(s.jobs, other)
  {
    hide IndexOfId;
    if |s.jobs| < 16 {
      var i := IndexOfId(s.jobs, other);
      IndexIs(Add(s, pid).0.jobs, other, if i < |s.jobs| || other == s.nextId then i else i + 1);
    }
  }

  // An id, and a finished process, stand for the first job that has them.
  lemma FirstById(a: seq<Job>, job: Job, b: seq<Job>, running: bool)
    requires forall k :: 0 <= k < |a| ==> a[k].id != job.id
    ensures var jobs := a + [job] + b;
            && Lookup(jobs, job.id) == Some(job)
            && Without(jobs, IndexOfId(jobs, job.id)) == a + b
            && Mark(jobs, job.id, running) == a + [job.(running := running)] + b
  {
    hide IndexOfId;
    IndexIs(a + [job] + b, job.id, |a|);
  }

  lemma NoneById(jobs: seq<Job>, id: nat, running: bool)
    requires forall k :: 0 <= k < |jobs| ==> jobs[k].id != id
    ensures Lookup(jobs, id) == None && Without(jobs, IndexOfId(jobs, id)) == jobs && Mark(jobs, id, running) == jobs
  {
    hide IndexOfId;
    IndexIs(jobs, id, |jobs|);
  }

  lemma ReapsFirst(a: seq<Job>, job: Job, b: seq<Job>, rest: seq<int>)
    requires job.pid > 0 && forall k :: 0 <= k < |a| ==> a[k].pid != job.pid
    ensures Reaped(a + [job] + b, [job.pid] + rest) == Reaped(a + b, rest)
  {
    hide IndexOfPid;
    var jobs := a + [job] + b;
    var i := IndexOfPid(jobs, job.pid);
    assert jobs[|a|] == job && forall k :: 0 <= k < |a| ==> jobs[k] == a[k];
    assert i == |a|;
    assert Without(jobs, i) == a + b;
    DropHead([job.pid], rest);
  }

  lemma ReapsNone(jobs: seq<Job>, pid: int, rest: seq<int>)
    requires forall k :: 0 <= k < |jobs| ==> jobs[k].pid != pid
    ensures Reaped(jobs, [pid] + rest) == if pid > 0 then Reaped(jobs, rest) else jobs
  {
    hide IndexOfPid;
    var i := IndexOfPid(jobs, pid);
    assert Without(jobs, i) == jobs;
    DropHead([pid], rest);
  }

  lemma WithoutRows(jobs: seq<Job>, i: nat)
    requires i < |jobs|
    ensures var rest := Without(jobs, i);
            && |rest| == |jobs| - 1
            && (forall n :: 0 <= n < i ==> rest[n] == jobs[n])
            && (forall n :: i <= n < |rest| ==> rest[n] == jobs[n + 1])
  {
  }

  // Removing a job by its id removes that job and no other.
  lemma RemoveTakesOne(s: State, id: nat, other: nat)
    requires Ordered(s)
    ensures Lookup(Without(s.jobs, IndexOfId(s.jobs, id)), other) ==
            if other == id then None else Lookup(s.jobs, other)
  {
    hide IndexOfId;
    var i, j := IndexOfId(s.jobs, id), IndexOfId(s.jobs, other);
    var rest := Without(s.jobs, i);
    if i < |s.jobs| {
      WithoutRows(s.jobs, i);
      hide Without;
      if other == id {
        assert forall n :: 0 <= n < |s.jobs| && n != i ==> s.jobs[n].id != id;
        hide Ordered;
        IndexIs(rest, other, |rest|);
      } else {
        hide Ordered;
        IndexIs(rest, other, if j < i then j else j - 1);
      }
    }
  }

  // Marking changes the lookup of that id only.
  lemma MarkChangesOne(jobs: seq<Job>, id: nat, running: bool, other: nat)
    ensures Lookup(Mark(jobs, id, running), other) ==
            if other == id && Lookup(jobs, id).Some? then Some(Lookup(jobs, id).value.(running := running))
            else Lookup(jobs, other)
  {
    hide IndexOfId;
    var marked := Mark(jobs, id, running);
    assert forall n :: 0 <= n < |jobs| ==> marked[n].id == jobs[n].id;
    IndexIs(marked, other, IndexOfId(jobs, other));
  }

  // The processes that one round of reaping reports.
  function Finished(waits: seq<int>): seq<int> {
    if waits == [] || waits[0] <= 0 then [] else [waits[0]] + Finished(waits[1..])
  }

  ghost predicate DistinctPids(jobs: seq<Job>) {
    forall i, j :: 0 <= i < j < |jobs| ==> jobs[i].pid != jobs[j].pid
  }

  // Reaping takes off the list exactly the jobs whose process is reported.
  lemma {:induction false} ReapedExactly(jobs: seq<Job>, waits: seq<int>, job: Job)
    requires DistinctPids(jobs)
    ensures job in Reaped(jobs, waits) <==> job in jobs && job.pid !in Finished(waits)
    decreases |waits|
  {
    hide IndexOfPid;
    if waits != [] && waits[0] > 0 {
      var i := IndexOfPid(jobs, waits[0]);
      WithoutPid(jobs, waits[0], job);
      ReapedExactly(Without(jobs, i), waits[1..], job);
    }
  }

  lemma WithoutPid(jobs: seq<Job>, pid: int, job: Job)
    requires DistinctPids(jobs)
    ensures DistinctPids(Without(jobs, IndexOfPid(jobs, pid)))
    ensures job in Without(jobs, IndexOfPid(jobs, pid)) <==> job in jobs && job.pid != pid
  {
    hide IndexOfPid;
    var i := IndexOfPid(jobs, pid);
    var rest := Without(jobs, i);
    assert forall k :: 0 <= k < |rest| ==> rest[k] == if k < i then jobs[k] else jobs[k + 1];
    forall k | 0 <= k < |jobs| && k != i ensures jobs[k] in rest {
      assert jobs[k] == rest[if k < i then k else k - 1];
    }
  }

  lemma IndexIs(jobs: seq<Job>, id: nat, i: nat)
    requires i <= |jobs| && (i < |jobs| ==> jobs[i].id == id)
    requires forall k :: 0 <= k < i ==> jobs[k].id != id
    ensures IndexOfId(jobs, id) == i
  {
    var j := IndexOfId(jobs, id);
  }

  // ----- The arrays -----

  class JobTable {
    const ids: array<nat>
    const pids: array<int>
    const running: array<bool>
    var count: nat
    var nextId: nat
    ghost var jobs: seq<Job>

    ghost predicate Shape() {
      ids.Length == pids.Length == running.Length == JOB_MAX && ids as object != pids
    }

    function Row(i: nat): Job
      requires Shape() && i < JOB_MAX
      reads ids, pids, running
    {
      Job(ids[i], pids[i], running[i])
    }

    ghost predicate Valid()
      reads this, ids, pids, running
    {
      Shape() && count == |jobs| <= JOB_MAX && nextId < U64_LIMIT && forall i :: 0 <= i < count ==> Row(i) == jobs[i]
    }

    constructor ()
      ensures Valid() && jobs == [] && nextId == 1
    {
      ids := new nat[JOB_MAX](_ => 0);
      pids := new int[JOB_MAX](_ => 0);
      running := new bool[JOB_MAX](_ => false);
      count, nextId, jobs := 0, 1, [];
    }

    method JobAdd(pid: int) returns (id: nat)
      requires Valid()
      modifies this, ids, pids, running
      ensures Valid() && (State(jobs, nextId), id) == Add(State(old(jobs), old(nextId)), pid)
    {
      if count >= JOB_MAX {
        return 0;
      }
      var idx := count;
      id := nextId;
      nextId := (nextId + 1) % U64_LIMIT;
      ids[idx] := id;
      pids[idx] := pid;
      running[idx] := true;
      count := count + 1;
      jobs := jobs + [Job(id, pid, true)];
    }

    // Copies row j + 1 over row j.
    method ShiftRow(j: nat)
      requires Shape() && j + 1 < JOB_MAX
      modifies ids, pids, running
      ensures Row(j) == old(Row(j + 1))
      ensures forall k :: 0 <= k < JOB_MAX && k != j ==> Row(k) == old(Row(k))
    {
      ids[j] := ids[j + 1];
      pids[j] := pids[j + 1];
      running[j] := running[j + 1];
    }

    // The shift-left loop that removal and reaping share.
    method RemoveAt(i: nat)
      requires Valid() && i < count
      modifies this`count, this`jobs, ids, pids, running
      ensures Valid() && jobs == Without(old(jobs), i)
    {
      ghost var before := jobs;
      var j := i;
      while j < count - 1
        invariant i <= j < count == old(count) && jobs == before && nextId == old(nextId)
        invariant forall k :: 0 <= k < i ==> Row(k) == before[k]
        invariant forall k :: i <= k < j ==> Row(k) == before[k + 1]
        invariant forall k :: j <= k < count ==> Row(k) == before[k]
      {
        ShiftRow(j);
        j := j + 1;
      }
      count := count - 1;
      jobs := jobs[..i] + jobs[i + 1..];
      assert forall k :: 0 <= k < count ==> Row(k) == if k < i then before[k] else before[k + 1];
    }

    method FindId(id: nat) returns (i: nat)
      requires Valid()
      ensures i == IndexOfId(jobs, id)
    {
      i := 0;
      while i < count && ids[i] != id
        invariant 0 <= i <= count && forall k :: 0 <= k < i ==> jobs[k].id != id
      {
        assert Row(i) == jobs[i];
        i := i + 1;
      }
      assert i < count ==> Row(i) == jobs[i];
    }

    method JobRemoveById(id: nat) returns (found: bool)
      requires Valid()
      modifies this`count, this`jobs, ids, pids, running
      ensures Valid() && jobs == Without(old(jobs), IndexOfId(old(jobs), id))
      ensures found == Lookup(old(jobs), id).Some?
    {
      var i := FindId(id);
      found := i < count;
      if found {
        RemoveAt(i);
      }
    }

    method JobFindById(id: nat) returns (r: Option<Job>)
      requires Valid()
      ensures r == Lookup(jobs, id)
    {
      var i := FindId(id);
      if i < count {
        assert Row(i) == jobs[i];
        return Some(Job(ids[i], pids[i], running[i]));
      }
      r := None;
    }

    method JobSetRunning(id: nat, value: bool) returns (found: bool)
      requires Valid()
      modifies this`jobs, running
      ensures Valid() && jobs == Mark(old(jobs), id, value)
      ensures found == Lookup(old(jobs), id).Some?
    {
      var i := FindId(id);
      found := i < count;
      if found {
        assert Row(i) == jobs[i];
        ghost var before := jobs;
        running[i] := value;
        jobs := jobs[i := jobs[i].(running := value)];
        assert forall k :: 0 <= k < count && k != i ==> Row(k) == before[k];
      }
    }

    method FindPid(pid: int) returns (i: nat)
      requires Valid()
      ensures i == IndexOfPid(jobs, pid)
    {
      i := 0;
      while i < count && pids[i] != pid
        invariant 0 <= i <= count && forall k :: 0 <= k < i ==> jobs[k].pid != pid
      {
        assert Row(i) == jobs[i];
        i := i + 1;
      }
      assert i < count ==> Row(i) == jobs[i];
    }

    // waits are the answers of successive waitpid calls; when they run out the answer is 0.
    method JobReap(waits: seq<int>)
      requires Valid()
      modifies this`count, this`jobs, ids, pids, running
      ensures Valid() && jobs == Reaped(old(jobs), waits)
    {
      hide IndexOfPid, Row;
      var n := 0;
      assert waits[0..] == waits;
      while n < |waits| && waits[n] > 0
        invariant 0 <= n <= |waits| && Valid()
        invariant Reaped(jobs, waits[n..]) == Reaped(old(jobs), waits)
      {
        assert waits[n..][1..] == waits[n + 1..];
        var i := FindPid(waits[n]);
        if i < count {
          RemoveAt(i);
        }
        n := n + 1;
      }
    }
  }
}
