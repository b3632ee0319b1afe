// The pipe, fork and dup wiring of a pipeline (src/pipeline/exec.rs), over descriptor
// tables. Every system call that allocates a descriptor returns the lowest free one.
module Exec {
  import opened Bytes

  datatype Desc = Inherited(n: nat) | OutFile | InFile | ReadEnd(pipe: nat) | WriteEnd(pipe: nat)

  type Table = map<nat, Desc>

  // What fork answers in the parent when it succeeds.
  type Pid = x: int | x > 0 witness 1

  // A redirect is absent, or its open call succeeds or fails.
  datatype Redirect = Absent | Opens | Fails

  // Which segments have arguments, whether the first word of the first is a builtin that the
  // shell runs itself, whether the line ends in '&', what the redirects do, which of the pipe
  // and fork calls (one of each per segment at most) succeed, and what fork answers.
  datatype Plan = Plan(nonEmpty: seq<bool>, builtin: bool, background: bool, out: Redirect, inn: Redirect,
                       pipeOk: nat -> bool, forkOk: nat -> bool, pid: nat -> Pid)

  // The two descriptors of one pipe.
  datatype Ends = Ends(r: nat, w: nat)

  // A child: its table at the moment it runs its command, its segment, its process id.
  datatype Child = Child(table: Table, seg: nat, pid: Pid)

  // The parent: its table, the pipes it made, the read end for the next child, the children,
  // the close list, the closes made, and whether an error made it return early.
  datatype State = State(fds: Table, ends: seq<Ends>, prevRead: nat, children: seq<Child>,
                         toClose: seq<Option<nat>>, closed: seq<nat>, halted: bool)

  // The whole call: the table with which the shell ran a command itself, if it did, the
  // processes waited for, in order, and the one entered in the job table.
  datatype Outcome = Outcome(s: State, inShell: Option<Table>, waited: seq<Pid>, job: Option<Pid>)

  // ----- System calls on tables -----

  function KeysFrom(t: Table, n: nat): set<nat> {
    set k: nat | k in t && k >= n
  }

  function FreeFrom(t: Table, n: nat): (fd: nat)
    ensures fd >= n && fd !in t && forall k :: n <= k < fd ==> k in t
    decreases KeysFrom(t, n)
  {
    if n in t then
      assert n in KeysFrom(t, n) && n !in KeysFrom(t, n + 1);
      FreeFrom(t, n + 1)
    else n
  }

  function LowestFree(t: Table): (fd: nat)
    ensures fd !in t && forall k :: 0 <= k < fd ==> k in t
  {
    FreeFrom(t, 0)
  }

  function Open(t: Table, d: Desc): Table {
    t[LowestFree(t) := d]
  }

  function Close(t: Table, fd: nat): Table {
    t - {fd}
  }

  function Dup(t: Table, fd: nat): Table {
    if fd in t then t[LowestFree(t) := t[fd]] else t
  }

  function NewEnds(t: Table): Ends {
    var r := LowestFree(t);
    Ends(r, LowestFree(t[r := ReadEnd(0)]))
  }

  // ----- The protocol -----

  // The descriptor table of a child after its close and dup calls.
  function ChildTable(t: Table, curRead: nat, curWrite: nat): Table {
    var t1 := if curRead != 0 then Dup(Close(t, 0), curRead) else t;
    if curWrite != 1 then Dup(Close(t1, 1), curWrite) else t1
  }

  function StdoutFd(c: Plan, t: Table): nat {
    if c.out.Opens? then LowestFree(t) else 1
  }

  // The output file is opened before the input file.
  function AfterOut(c: Plan, t: Table): Table {
    if c.out.Opens? then Open(t, OutFile) else t
  }

  function StdinFd(c: Plan, t: Table): nat {
    if c.inn.Opens? then LowestFree(AfterOut(c, t)) else 0
  }

  function Base(c: Plan, t: Table): Table {
    if c.inn.Opens? then Open(AfterOut(c, t), InFile) else AfterOut(c, t)
  }

  // Both opens are attempted before either result is looked at.
  function Start(c: Plan, t: Table): State {
    var s := State(Base(c, t), [], StdinFd(c, t), [], [], [], false);
    if c.out.Fails? then s.(halted := true)
    else if c.inn.Fails? then
      (if StdoutFd(c, t) > 2 then CloseFd(s, StdoutFd(c, t)) else s).(halted := true)
    else s
  }

  function CloseFd(s: State, fd: nat): State {
    s.(fds := Close(s.fds, fd), closed := s.closed + [fd])
  }

  predicate IsLast(c: Plan, k: nat) {
    k + 1 == |c.nonEmpty|
  }

  // The pipe call of segment k, if it makes one.
  function MakePipe(c: Plan, s: State, k: nat): State {
    if IsLast(c, k) then s
    else
      var e := NewEnds(s.fds);
      s.(fds := s.fds[e.r := ReadEnd(|s.ends|)][e.w := WriteEnd(|s.ends|)],
         ends := s.ends + [e], prevRead := e.r)
  }

  // What the parent remembers to close for a child.
  function CloseEntry(curRead: nat, curWrite: nat, stdinFd: nat, stdoutFd: nat): Option<nat> {
    if curRead > 2 && curRead != stdinFd then Some(curRead)
    else if curWrite > 2 && curWrite != stdoutFd then Some(curWrite)
    else None
  }

  // One iteration of the segment loop; t is the table before the redirects.
  function Spawn(c: Plan, t: Table, s: State, k: nat): State {
    if k >= |c.nonEmpty| || !c.nonEmpty[k] then s
    else if !IsLast(c, k) && !c.pipeOk(k) then s.(halted := true)
    else
      var s1 := MakePipe(c, s, k);
      var curRead := s.prevRead;
      var curWrite := if IsLast(c, k) then StdoutFd(c, t) else s1.ends[|s1.ends| - 1].w;
      if !c.forkOk(k) then
        var s2 := if curWrite > 2 then CloseFd(s1, curWrite) else s1;
        var s3 := if curRead > 2 && curRead != StdinFd(c, t) then CloseFd(s2, curRead) else s2;
        s3.(halted := true)
      else
        s1.(children := s1.children + [Child(ChildTable(s1.fds, curRead, curWrite), k, c.pid(k))],
            toClose := s1.toClose + [CloseEntry(curRead, curWrite, StdinFd(c, t), StdoutFd(c, t))])
  }

  function SpawnFrom(c: Plan, t: Table, s: State, k: nat): State
    decreases |c.nonEmpty| - k
  {
    if k >= |c.nonEmpty| || s.halted then s else SpawnFrom(c, t, Spawn(c, t, s, k), k + 1)
  }

  // The final loop over the close list.
  function CloseList(s: State, from: nat): State
    decreases |s.toClose| - from
  {
    if from >= |s.toClose| then s
    else
      var entry := s.toClose[from];
      CloseList(if entry.Some? && entry.value > 2 then CloseFd(s, entry.value) else s, from + 1)
  }

  function Spawned(c: Plan, t: Table): State {
    SpawnFrom(c, t, Start(c, t), 0)
  }

  // One segment without redirects takes another path,
  predicate Alone(c: Plan) {
    |c.nonEmpty| == 1 && c.out.Absent? && c.inn.Absent?
  }

  // and so does a single builtin with redirects.
  predicate BuiltinAlone(c: Plan) {
    |c.nonEmpty| == 1 && !Alone(c) && c.nonEmpty[0] && c.builtin
  }

  // Does the shell run the command itself?
  predicate RunsInShell(c: Plan) {
    BuiltinAlone(c) || (Alone(c) && c.nonEmpty[0] && !c.background)
  }

  function Fresh(t: Table, prevRead: nat): State {
    State(t, [], prevRead, [], [], [], false)
  }

  function RunAlone(c: Plan, t: Table): Outcome
    requires Alone(c)
  {
    var s := Fresh(t, 0);
    if !c.nonEmpty[0] then Outcome(s, None, [], None)
    else if !c.background then Outcome(s, Some(t), [], None)
    else if !c.forkOk(0) then Outcome(s.(halted := true), None, [], None)
    else Outcome(s.(children := [Child(t, 0, c.pid(0))]), None, [], Some(c.pid(0)))
  }

  // The builtin runs with the shell's own descriptors; the redirect files are closed again.
  function RunBuiltin(c: Plan, t: Table): Outcome {
    var s := Start(c, t);
    var s1 := if StdoutFd(c, t) > 2 then CloseFd(s, StdoutFd(c, t)) else s;
    var s2 := if StdinFd(c, t) > 2 then CloseFd(s1, StdinFd(c, t)) else s1;
    Outcome(s2, Some(s.fds), [], None)
  }

  function Pids(children: seq<Child>): (r: seq<Pid>)
    ensures |r| == |children| && forall k :: 0 <= k < |r| ==> r[k] == children[k].pid
  {
    seq(|children|, k requires 0 <= k < |children| => children[k].pid)
  }

  // A foreground line is waited for, of a background line the last process becomes a job.
  function Finish(c: Plan, s: State): Outcome {
    var pids := Pids(s.children);
    Outcome(CloseList(s, 0), None, if c.background then [] else pids,
            if c.background && pids != [] then Some(pids[|pids| - 1]) else None)
  }

  function Executed(c: Plan, t: Table): Outcome {
    if Alone(c) then RunAlone(c, t)
    else if Start(c, t).halted then Outcome(Start(c, t), None, [], None)
    else if BuiltinAlone(c) then RunBuiltin(c, t)
    else if Spawned(c, t).halted then Outcome(Spawned(c, t), None, [], None)
    else Finish(c, Spawned(c, t))
  }

  // ----- The loop itself -----

  class Parent {
    var fds: Table
    var ends: seq<Ends>
    var prevRead: nat
    var children: seq<Child>
    var parentClose: seq<Option<nat>>
    var closed: seq<nat>
    var inShell: Option<Table>
    var waited: seq<Pid>
    var job: Option<Pid>

    function Now(halted: bool): State
      reads this
    {
      State(fds, ends, prevRead, children, parentClose, closed, halted)
    }

    // Nothing has been called yet.
    predicate Idle()
      reads this
    {
      Now(false) == Fresh(fds, 0) && inShell == None && waited == [] && job == None
    }

    constructor (t: Table)
      ensures Idle() && fds == t
    {
      fds, ends, prevRead, children, parentClose, closed := t, [], 0, [], [], [];
      inShell, waited, job := None, [], None;
    }

    method CloseCall(fd: nat)
      modifies this`fds, this`closed
      ensures Now(false) == CloseFd(old(Now(false)), fd)
    {
      fds, closed := fds - {fd}, closed + [fd];
    }

    method OpenCall(d: Desc) returns (fd: nat)
      modifies this`fds
      ensures fd == LowestFree(old(fds)) && fds == Open(old(fds), d)
    {
      fd := LowestFree(fds);
      fds := fds[fd := d];
    }

    // Opens the redirect files; halted when one of them cannot be opened.
    method OpenRedirects(c: Plan) returns (stdoutFd: nat, stdinFd: nat, halted: bool)
      requires Idle()
      modifies this`fds, this`prevRead, this`closed
      ensures Now(halted) == Start(c, old(fds))
      ensures stdoutFd == StdoutFd(c, old(fds)) && stdinFd == StdinFd(c, old(fds))
    {
      hide LowestFree;
      stdoutFd, stdinFd := 1, 0;
      if c.out.Opens? {
        stdoutFd := OpenCall(OutFile);
      }
      if c.inn.Opens? {
        stdinFd := OpenCall(InFile);
      }
      prevRead := stdinFd;
      halted := c.out.Fails? || c.inn.Fails?;
      if !c.out.Fails? && c.inn.Fails? && stdoutFd > 2 {
        CloseCall(stdoutFd);
      }
    }

    // The body of the segment loop; t is the table before the redirects.
    method RunSegment(c: Plan, ghost t: Table, stdoutFd: nat, stdinFd: nat, k: nat) returns (halted: bool)
      requires k < |c.nonEmpty| && stdoutFd == StdoutFd(c, t) && stdinFd == StdinFd(c, t)
      modifies this`fds, this`ends, this`prevRead, this`children, this`parentClose, this`closed
      ensures Now(halted) == Spawn(c, t, old(Now(false)), k)
    {
      hide LowestFree, ChildTable, NewEnds, StdoutFd, StdinFd;
      if !c.nonEmpty[k] {
        return false;
      }
      var isLast := k == |c.nonEmpty| - 1;
      var curRead := prevRead;
      var curWrite: nat;
      if isLast {
        curWrite := stdoutFd;
      } else {
        if !c.pipeOk(k) {
          return true;
        }
        var e := NewEnds(fds);
        fds := fds[e.r := ReadEnd(|ends|)][e.w := WriteEnd(|ends|)];
        ends := ends + [e];
        curWrite := e.w;
        prevRead := e.r;
      }
      if !c.forkOk(k) {
        if curWrite > 2 {
          CloseCall(curWrite);
        }
        if curRead > 2 && curRead != stdinFd {
          CloseCall(curRead);
        }
        return true;
      }
      children := children + [Child(ChildTable(fds, curRead, curWrite), k, c.pid(k))];
      parentClose := parentClose + [
        if curRead > 2 && curRead != stdinFd then Some(curRead)
        else if curWrite > 2 && curWrite != stdoutFd then Some(curWrite)
        else None];
      halted := false;
    }

    // The path of one segment without redirects.
    method ExecuteAlone(c: Plan) returns (halted: bool)
      requires Idle() && Alone(c)
      modifies this`children, this`inShell, this`job
      ensures Outcome(Now(halted), inShell, waited, job) == RunAlone(c, old(fds))
    {
      halted := false;
      if !c.nonEmpty[0] {
        return;
      }
      if c.background {
        if !c.forkOk(0) {
          return true;
        }
        children := [Child(fds, 0, c.pid(0))];
        job := Some(c.pid(0));
        return;
      }
      inShell := Some(fds);
    }

    // The segment loop, from the table after the redirects; t is the table before them.
    method RunSegments(c: Plan, ghost t: Table, stdoutFd: nat, stdinFd: nat) returns (halted: bool)
      requires Now(false) == Start(c, t) && stdoutFd == StdoutFd(c, t) && stdinFd == StdinFd(c, t)
      modifies this`fds, this`ends, this`prevRead, this`children, this`parentClose, this`closed
      ensures Now(halted) == Spawned(c, t)
    {
      hide Spawn, Start, StdoutFd, StdinFd;
      var k := 0;
      while k < |c.nonEmpty|
        invariant 0 <= k <= |c.nonEmpty|
        invariant SpawnFrom(c, t, Now(false), k) == Spawned(c, t)
      {
        halted := RunSegment(c, t, stdoutFd, stdinFd, k);
        if halted {
          return;
        }
        k := k + 1;
      }
      halted := false;
    }

    method CloseAll()
      modifies this`fds, this`closed
      ensures Now(false) == CloseList(old(Now(false)), 0)
    {
      hide CloseFd;
      ghost var all := Now(false);
      var j := 0;
      while j < |parentClose|
        invariant 0 <= j <= |parentClose| && parentClose == all.toClose
        invariant CloseList(Now(false), j) == CloseList(all, 0)
      {
        if parentClose[j].Some? && parentClose[j].value > 2 {
          CloseCall(parentClose[j].value);
        }
        j := j + 1;
      }
    }

    method WaitAll(c: Plan)
      requires waited == [] && job == None
      modifies this`waited, this`job
      ensures var pids := Pids(children);
              && waited == (if c.background then [] else pids)
              && job == if c.background && pids != [] then Some(pids[|pids| - 1]) else None
    {
      if !c.background {
        var j := 0;
        while j < |children|
          invariant 0 <= j <= |children| && waited == Pids(children)[..j] && job == None
        {
          waited := waited + [children[j].pid];
          j := j + 1;
        }
      } else if |children| > 0 {
        job := Some(children[|children| - 1].pid);
      }
    }

    // halted reports the early returns after a failed open, pipe or fork.
    method Execute(c: Plan) returns (halted: bool)
      requires Idle()
      modifies this
      ensures Outcome(Now(halted), inShell, waited, job) == Executed(c, old(fds))
    {
      hide Spawn, Start, CloseFd, StdoutFd, StdinFd, Spawned;
      if Alone(c) {
        halted := ExecuteAlone(c);
        return;
      }
      ghost var t := fds;
      var stdoutFd, stdinFd, failed := OpenRedirects(c);
      if failed {
        return true;
      }
      if |c.nonEmpty| == 1 {
        if !c.nonEmpty[0] {
          NothingToRun(c, t);
          return false;
        }
        if c.builtin {
          inShell := Some(fds);
          if stdoutFd > 2 {
            CloseCall(stdoutFd);
          }
          if stdinFd > 2 {
            CloseCall(stdinFd);
          }
          return false;
        }
      }
      halted := RunSegments(c, t, stdoutFd, stdinFd);
      if halted {
        return;
      }
      CloseAll();
      WaitAll(c);
    }
  }

  // A single segment without arguments: only the redirects are opened, and stay open.
  lemma NothingToRun(c: Plan, t: Table)
    requires c.nonEmpty == [false] && !Start(c, t).halted
    ensures Spawned(c, t) == Start(c, t) && Finish(c, Start(c, t)) == Outcome(Start(c, t), None, [], None)
  {
    var s := Start(c, t);
    assert Spawn(c, t, s, 0) == s;
    assert SpawnFrom(c, t, s, 0) == SpawnFrom(c, t, s, 1);
  }

  // ----- What the descriptors are -----

  ghost predicate Std(t: Table) {
    0 in t && 1 in t && 2 in t
  }

  ghost predicate Extends(big: Table, small: Table) {
    forall fd :: fd in small ==> fd in big && big[fd] == small[fd]
  }

  lemma BaseFacts(c: Plan, t: Table)
    requires Std(t)
    ensures Extends(Base(c, t), t)
    ensures var o := StdoutFd(c, t);
            o in Base(c, t) && Base(c, t)[o] == (if c.out.Opens? then OutFile else t[1]) &&
            (if c.out.Opens? then o > 2 && o !in t else o == 1)
    ensures var i := StdinFd(c, t);
            i in Base(c, t) && Base(c, t)[i] == (if c.inn.Opens? then InFile else t[0]) &&
            (if c.inn.Opens? then i > 2 && i !in t else i == 0)
    ensures forall fd :: fd in Base(c, t) ==>
              fd in t || (c.out.Opens? && fd == StdoutFd(c, t)) || (c.inn.Opens? && fd == StdinFd(c, t))
  {
  }

  // After its closes and dups a child reads from curRead, writes to curWrite, and has every
  // other descriptor as before.
  lemma ChildTableFacts(t: Table, curRead: nat, curWrite: nat)
    requires Std(t) && curRead in t && curWrite in t
    requires (curRead == 0 || curRead > 2) && (curWrite == 1 || curWrite > 2)
    ensures var child := ChildTable(t, curRead, curWrite);
            && 0 in child && child[0] == t[curRead]
            && 1 in child && child[1] == t[curWrite]
            && forall fd :: fd > 1 ==> (fd in child <==> fd in t) && (fd in t ==> child[fd] == t[fd])
  {
    var closed := Close(t, 0);
    assert LowestFree(closed) == 0;
    var t1 := if curRead != 0 then Dup(closed, curRead) else t;
    assert 0 in t1 && 1 in t1 && curWrite in t1;
    assert LowestFree(Close(t1, 1)) == 1;
  }

  ghost predicate IsEnd(ends: seq<Ends>, fd: nat) {
    exists j :: 0 <= j < |ends| && (ends[j].r == fd || ends[j].w == fd)
  }

  // The parent's table is the base table plus both ends of every pipe made.
  ghost predicate Holds(base: Table, fds: Table, ends: seq<Ends>) {
    && Extends(fds, base)
    && (forall j :: 0 <= j < |ends| ==>
          ends[j].r in fds && fds[ends[j].r] == ReadEnd(j) && ends[j].r !in base &&
          ends[j].w in fds && fds[ends[j].w] == WriteEnd(j) && ends[j].w !in base)
    && (forall fd :: fd in fds ==> fd in base || IsEnd(ends, fd))
  }

  // Child j: its input is the previous child's pipe, its output the next one's, and the ends
  // go to the redirect files or the inherited descriptors. It also still holds the write end
  // of the pipe it reads from.
  ghost predicate ChildWired(c: Plan, t: Table, ends: seq<Ends>, j: nat, child: Table)
    requires Std(t)
  {
    && 0 in child && 1 in child && 2 in child && child[2] == t[2]
    && child[0] == (if j > 0 then ReadEnd(j - 1) else if c.inn.Opens? then InFile else t[0])
    && child[1] == (if j < |ends| then WriteEnd(j) else if c.out.Opens? then OutFile else t[1])
    && (0 < j <= |ends| ==> ends[j - 1].w > 2 && ends[j - 1].w in child && child[ends[j - 1].w] == WriteEnd(j - 1))
  }

  ghost predicate EntryRight(ends: seq<Ends>, j: nat, entry: Option<nat>) {
    if j == 0 then entry == (if ends == [] then None else Some(ends[0].w))
    else j <= |ends| && entry == Some(ends[j - 1].r)
  }

  // The positions that hold true, in order.
  function Indices(b: seq<bool>): (r: seq<nat>)
    ensures forall k :: 0 <= k < |r| ==> r[k] < |b| && b[r[k]]
  {
    if b == [] then [] else Indices(b[..|b| - 1]) + if b[|b| - 1] then [|b| - 1] else []
  }

  function Count(b: seq<bool>): nat {
    |Indices(b)|
  }

  // The children are the segments with arguments, in order.
  ghost predicate SegsRight(children: seq<Child>, b: seq<bool>) {
    |children| == |Indices(b)| && forall j :: 0 <= j < |children| ==> children[j].seg == Indices(b)[j]
  }

  lemma SegsGrow(children: seq<Child>, b: seq<bool>, k: nat, child: Child)
    requires k < |b| && SegsRight(children, b[..k])
    ensures b[k] && child.seg == k ==> SegsRight(children + [child], b[..k + 1])
    ensures !b[k] ==> SegsRight(children, b[..k + 1])
  {
    assert b[..k + 1][..k] == b[..k];
  }

  // Has the last segment, if it has arguments, been started?
  predicate LastDone(c: Plan, k: nat)
    requires k <= |c.nonEmpty|
  {
    0 < k == |c.nonEmpty| && c.nonEmpty[k - 1]
  }

  // What holds before segment k while no call has failed.
  ghost predicate Wired(c: Plan, t: Table, s: State, k: nat)
    requires Std(t) && k <= |c.nonEmpty|
  {
    && Holds(Base(c, t), s.fds, s.ends)
    && s.prevRead == (if s.ends == [] then StdinFd(c, t) else s.ends[|s.ends| - 1].r)
    && |s.toClose| == |s.children| && SegsRight(s.children, c.nonEmpty[..k])
    && |s.children| == |s.ends| + (if LastDone(c, k) then 1 else 0)
    && (forall j :: 0 <= j < |s.children| ==> ChildWired(c, t, s.ends, j, s.children[j].table))
    && (forall j :: 0 <= j < |s.children| ==> EntryRight(s.ends, j, s.toClose[j]))
    && s.closed == [] && !s.halted
  }

  lemma NewEndsFresh(t: Table)
    ensures var e := NewEnds(t); e.r !in t && e.w !in t && e.r != e.w
    ensures Std(t) ==> NewEnds(t).r > 2 && NewEnds(t).w > 2
  {
  }

  lemma PipeHolds(base: Table, fds: Table, ends: seq<Ends>, e: Ends)
    requires Holds(base, fds, ends) && e.r !in fds && e.w !in fds && e.r != e.w
    ensures Holds(base, fds[e.r := ReadEnd(|ends|)][e.w := WriteEnd(|ends|)], ends + [e])
  {
    var all := ends + [e];
    forall fd | IsEnd(ends, fd) || fd == e.r || fd == e.w
      ensures IsEnd(all, fd)
    {
      if IsEnd(ends, fd) {
        var j :| 0 <= j < |ends| && (ends[j].r == fd || ends[j].w == fd);
        assert all[j] == ends[j];
      } else {
        assert all[|ends|] == e;
      }
    }
  }

  // The parent after the pipe call of segment k, and the two descriptors its child gets.
  lemma PipeMade(c: Plan, t: Table, s: State, k: nat)
    requires Std(t) && k < |c.nonEmpty| && Wired(c, t, s, k)
    ensures var s1 := MakePipe(c, s, k);
            && Holds(Base(c, t), s1.fds, s1.ends) && Std(s1.fds)
            && (IsLast(c, k) ==> s1 == s)
            && (!IsLast(c, k) ==>
                  && |s1.ends| == |s.ends| + 1 && s1.ends[..|s.ends|] == s.ends
                  && s1.prevRead == s1.ends[|s.ends|].r)
            && s1 == s.(fds := s1.fds, ends := s1.ends, prevRead := s1.prevRead)
  {
    BaseFacts(c, t);
    hide LowestFree, NewEnds, Base, StdinFd, StdoutFd, ChildWired, EntryRight;
    NewEndsFresh(s.fds);
    if !IsLast(c, k) {
      PipeHolds(Base(c, t), s.fds, s.ends, NewEnds(s.fds));
    }
  }

  function CurWrite(c: Plan, t: Table, s: State, k: nat): nat
    requires k < |c.nonEmpty|
  {
    var s1 := MakePipe(c, s, k);
    if IsLast(c, k) then StdoutFd(c, t) else s1.ends[|s1.ends| - 1].w
  }

  // An iteration that starts a child adds the child and its close list entry.
  lemma SpawnShape(c: Plan, t: Table, s: State, k: nat)
    requires k < |c.nonEmpty| && c.nonEmpty[k] && !Spawn(c, t, s, k).halted && !s.halted
    ensures var s1 := MakePipe(c, s, k);
            var child := Child(ChildTable(s1.fds, s.prevRead, CurWrite(c, t, s, k)), k, c.pid(k));
            var entry := CloseEntry(s.prevRead, CurWrite(c, t, s, k), StdinFd(c, t), StdoutFd(c, t));
            Spawn(c, t, s, k) == s1.(children := s.children + [child], toClose := s.toClose + [entry])
  {
    hide LowestFree, NewEnds, Base, StdinFd, StdoutFd, ChildTable;
  }

  lemma SpawnKeepsWired(c: Plan, t: Table, s: State, k: nat)
    requires Std(t) && k < |c.nonEmpty| && Wired(c, t, s, k)
    requires !Spawn(c, t, s, k).halted
    ensures Wired(c, t, Spawn(c, t, s, k), k + 1)
  {
    hide LowestFree, NewEnds, Base, StdinFd, StdoutFd, ChildTable, MakePipe, ChildWired, EntryRight, Holds, Spawn,
         CloseEntry, SegsRight, Indices;
    SegsGrow(s.children, c.nonEmpty, k, Child(map[], k, c.pid(k)));
    if c.nonEmpty[k] {
      PipeMade(c, t, s, k);
      SpawnShape(c, t, s, k);
      var s1 := MakePipe(c, s, k);
      var n := |s.children|;
      assert s.ends != [] ==> s1.ends[n - 1] == s.ends[n - 1] by {
        if !IsLast(c, k) && s.ends != [] {
          assert s1.ends[n - 1] == s1.ends[..n][n - 1];
        }
      }
      SegsGrow(s.children, c.nonEmpty, k, Child(ChildTable(s1.fds, s.prevRead, CurWrite(c, t, s, k)), k, c.pid(k)));
      NewChild(c, t, s1.fds, s1.ends, n, s.prevRead, CurWrite(c, t, s, k));
      OldChildren(c, t, s.ends, s1.ends, s.children, s.toClose);
    } else {
      assert Spawn(c, t, s, k) == s by { EmptySegment(c, t, s, k); }
    }
  }

  lemma EmptySegment(c: Plan, t: Table, s: State, k: nat)
    requires k < |c.nonEmpty| && !c.nonEmpty[k]
    ensures Spawn(c, t, s, k) == s
  {
  }

  lemma OldChildren(c: Plan, t: Table, ends: seq<Ends>, more: seq<Ends>, children: seq<Child>,
                    entries: seq<Option<nat>>)
    requires Std(t) && |children| == |entries| == |ends| <= |more| && more[..|ends|] == ends
    requires forall j :: 0 <= j < |children| ==> ChildWired(c, t, ends, j, children[j].table)
    requires forall j :: 0 <= j < |children| ==> EntryRight(ends, j, entries[j])
    ensures forall j :: 0 <= j < |children| ==> ChildWired(c, t, more, j, children[j].table)
    ensures forall j :: 0 <= j < |children| ==> EntryRight(more, j, entries[j])
  {
    forall j | 0 <= j < |children|
      ensures ChildWired(c, t, more, j, children[j].table) && EntryRight(more, j, entries[j])
    {
      OldChild(c, t, ends, more, j, children[j].table, entries[j]);
    }
  }

  // A later pipe does not change what an earlier child has.
  lemma OldChild(c: Plan, t: Table, ends: seq<Ends>, more: seq<Ends>, j: nat, child: Table, entry: Option<nat>)
    requires Std(t) && j < |ends| <= |more| && more[..|ends|] == ends
    requires ChildWired(c, t, ends, j, child) && EntryRight(ends, j, entry)
    ensures ChildWired(c, t, more, j, child) && EntryRight(more, j, entry)
  {
    assert forall i :: 0 <= i < |ends| ==> more[i] == ends[i];
  }

  lemma NewChild(c: Plan, t: Table, fds: Table, ends: seq<Ends>, n: nat, curRead: nat, curWrite: nat)
    requires Std(t) && Holds(Base(c, t), fds, ends) && n <= |ends| <= n + 1
    requires curRead == if n == 0 then StdinFd(c, t) else ends[n - 1].r
    requires curWrite == if n < |ends| then ends[n].w else StdoutFd(c, t)
    ensures ChildWired(c, t, ends, n, ChildTable(fds, curRead, curWrite))
    ensures EntryRight(ends, n, CloseEntry(curRead, curWrite, StdinFd(c, t), StdoutFd(c, t)))
  {
    BaseFacts(c, t);
    EndsAreHigh(c, t, fds, ends);
    hide LowestFree, Base, StdinFd, StdoutFd, ChildTable, IsEnd, Holds, EntryRight, CloseEntry;
    EndsHeld(Base(c, t), fds, ends, n);
    ChildTableFacts(fds, curRead, curWrite);
    hide ChildWired;
    NewEntry(c, t, ends, n, curRead, curWrite);
  }

  lemma EndsHeld(base: Table, fds: Table, ends: seq<Ends>, n: nat)
    requires Holds(base, fds, ends) && n <= |ends| <= n + 1
    ensures Extends(fds, base)
    ensures n < |ends| ==> ends[n].w in fds && fds[ends[n].w] == WriteEnd(n)
    ensures n > 0 ==> ends[n - 1].r in fds && fds[ends[n - 1].r] == ReadEnd(n - 1)
    ensures n > 0 ==> ends[n - 1].w in fds && fds[ends[n - 1].w] == WriteEnd(n - 1)
    ensures forall j :: 0 <= j < |ends| ==> ends[j].r !in base && ends[j].w !in base
  {
  }

  lemma NewEntry(c: Plan, t: Table, ends: seq<Ends>, n: nat, curRead: nat, curWrite: nat)
    requires Std(t) && n <= |ends| <= n + 1
    requires forall j :: 0 <= j < |ends| ==> ends[j].r > 2 && ends[j].w > 2
    requires forall j :: 0 <= j < |ends| ==> ends[j].r !in Base(c, t) && ends[j].w !in Base(c, t)
    requires curRead == if n == 0 then StdinFd(c, t) else ends[n - 1].r
    requires curWrite == if n < |ends| then ends[n].w else StdoutFd(c, t)
    ensures EntryRight(ends, n, CloseEntry(curRead, curWrite, StdinFd(c, t), StdoutFd(c, t)))
  {
    BaseFacts(c, t);
    hide LowestFree, Base, StdinFd, StdoutFd;
  }

  lemma EndsAreHigh(c: Plan, t: Table, fds: Table, ends: seq<Ends>)
    requires Std(t) && Holds(Base(c, t), fds, ends)
    ensures forall j :: 0 <= j < |ends| ==> ends[j].r > 2 && ends[j].w > 2
  {
    hide Base, StdoutFd, StdinFd, Holds;
    BaseFacts(c, t);
    assert 0 in Base(c, t) && 1 in Base(c, t) && 2 in Base(c, t);
    forall j | 0 <= j < |ends| ensures ends[j].r > 2 && ends[j].w > 2 {
      EndIsNew(Base(c, t), fds, ends, j);
    }
  }

  lemma EndIsNew(base: Table, fds: Table, ends: seq<Ends>, j: nat)
    requires Holds(base, fds, ends) && j < |ends|
    ensures ends[j].r !in base && ends[j].w !in base
  {
    hide IsEnd, Extends;
  }

  // ----- Whole runs -----

  lemma StartWired(c: Plan, t: Table)
    requires Std(t) && !Start(c, t).halted
    ensures Wired(c, t, Start(c, t), 0)
  {
    BaseFacts(c, t);
  }

  lemma {:induction false} HaltedStays(c: Plan, t: Table, s: State, k: nat)
    ensures s.halted ==> SpawnFrom(c, t, s, k) == s
  {
  }

  lemma {:induction false} RunKeepsWired(c: Plan, t: Table, s: State, k: nat)
    requires Std(t) && k <= |c.nonEmpty| && Wired(c, t, s, k)
    requires !SpawnFrom(c, t, s, k).halted
    ensures Wired(c, t, SpawnFrom(c, t, s, k), |c.nonEmpty|)
    decreases |c.nonEmpty| - k
  {
    hide Wired, Spawn;
    if k < |c.nonEmpty| {
      assert !s.halted by { NotHalted(c, t, s, k); }
      var next := Spawn(c, t, s, k);
      HaltedStays(c, t, next, k + 1);
      SpawnKeepsWired(c, t, s, k);
      RunKeepsWired(c, t, next, k + 1);
    }
  }

  lemma NotHalted(c: Plan, t: Table, s: State, k: nat)
    requires Std(t) && k <= |c.nonEmpty| && Wired(c, t, s, k)
    ensures !s.halted && s.closed == []
  {
  }

  // Does a call fail that the run makes?
  predicate CallsFail(c: Plan) {
    c.out.Fails? || c.inn.Fails? ||
    (!RunsInShell(c) &&
     exists k :: 0 <= k < |c.nonEmpty| && c.nonEmpty[k] && (!c.forkOk(k) || (!IsLast(c, k) && !c.pipeOk(k))))
  }

  lemma {:induction false} HaltsFrom(c: Plan, t: Table, s: State, k: nat)
    requires k <= |c.nonEmpty| && !s.halted
    ensures SpawnFrom(c, t, s, k).halted <==>
            exists j :: k <= j < |c.nonEmpty| && c.nonEmpty[j] && (!c.forkOk(j) || (!IsLast(c, j) && !c.pipeOk(j)))
    decreases |c.nonEmpty| - k
  {
    if k < |c.nonEmpty| {
      SpawnHalts(c, t, s, k);
      hide Spawn;
      var next := Spawn(c, t, s, k);
      HaltedStays(c, t, next, k + 1);
      if !next.halted {
        HaltsFrom(c, t, next, k + 1);
      }
    }
  }

  lemma SpawnHalts(c: Plan, t: Table, s: State, k: nat)
    requires k < |c.nonEmpty| && !s.halted
    ensures Spawn(c, t, s, k).halted <==> c.nonEmpty[k] && (!c.forkOk(k) || (!IsLast(c, k) && !c.pipeOk(k)))
  {
    hide LowestFree, NewEnds, StdoutFd, StdinFd, ChildTable, Base;
  }

  // A run returns early exactly when a redirect cannot be opened or a call that it makes fails.
  lemma HaltsIffCallsFail(c: Plan, t: Table)
    ensures Executed(c, t).s.halted <==> CallsFail(c)
  {
    hide Spawn, LowestFree, Base, StdoutFd, StdinFd;
    if !Alone(c) && !BuiltinAlone(c) {
      HaltedStays(c, t, Start(c, t), 0);
      if !Start(c, t).halted {
        HaltsFrom(c, t, Start(c, t), 0);
      }
      CloseListEffect(Spawned(c, t), 0);
    }
  }

  // The descriptors a close list names.
  function Values(list: seq<Option<nat>>, from: nat): seq<nat>
    decreases |list| - from
  {
    if from >= |list| then []
    else (if list[from].Some? && list[from].value > 2 then [list[from].value] else []) + Values(list, from + 1)
  }

  // after is before minus the descriptors in gone.
  ghost predicate Without(after: Table, before: Table, gone: seq<nat>) {
    forall fd :: (fd in after <==> fd in before && fd !in gone) && (fd in after ==> after[fd] == before[fd])
  }

  lemma WithoutTwice(before: Table, mid: Table, after: Table, first: seq<nat>, rest: seq<nat>)
    requires Without(mid, before, first) && Without(after, mid, rest)
    ensures Without(after, before, first + rest)
  {
  }

  lemma WithoutOne(before: Table, fd: nat)
    ensures Without(Close(before, fd), before, [fd]) && Without(before, before, [])
  {
  }

  lemma {:induction false} CloseListEffect(s: State, from: nat)
    ensures var r := CloseList(s, from);
            && r.closed == s.closed + Values(s.toClose, from)
            && r.ends == s.ends && r.children == s.children && r.halted == s.halted
            && Without(r.fds, s.fds, Values(s.toClose, from))
    decreases |s.toClose| - from
  {
    hide Without;
    Unit(s.closed);
    if from < |s.toClose| {
      var entry := s.toClose[from];
      var next := if entry.Some? && entry.value > 2 then CloseFd(s, entry.value) else s;
      var first := if entry.Some? && entry.value > 2 then [entry.value] else [];
      CloseListEffect(next, from + 1);
      WithoutOne(s.fds, if entry.Some? then entry.value else 0);
      WithoutTwice(s.fds, next.fds, CloseList(s, from).fds, first, Values(s.toClose, from + 1));
      Assoc(s.closed, first, Values(s.toClose, from + 1));
    } else {
      WithoutOne(s.fds, 0);
    }
  }

  // A run of the segment loop in which nothing fails.
  ghost predicate LoopRun(c: Plan, t: Table) {
    !Alone(c) && !BuiltinAlone(c) && !Spawned(c, t).halted
  }

  lemma LoopWired(c: Plan, t: Table)
    requires Std(t) && LoopRun(c, t)
    ensures !Start(c, t).halted && Executed(c, t) == Finish(c, Spawned(c, t))
    ensures Wired(c, t, Spawned(c, t), |c.nonEmpty|)
  {
    hide Wired, Spawn, Start;
    HaltedStays(c, t, Start(c, t), 0);
    StartWired(c, t);
    RunKeepsWired(c, t, Start(c, t), 0);
  }

  // The three ways in which a run can do without failures.
  lemma RunCases(c: Plan, t: Table)
    requires !Executed(c, t).s.halted
    ensures Alone(c) || BuiltinAlone(c) || LoopRun(c, t)
    ensures BuiltinAlone(c) ==> Executed(c, t) == RunBuiltin(c, t)
  {
    hide Start, Spawned;
  }

  // Main result: in a run without failures the shell runs the command itself, with its own
  // descriptors, or there is one child per segment with arguments, in order, and every child
  // is wired to its neighbours.
  lemma RunWires(c: Plan, t: Table)
    requires Std(t) && !Executed(c, t).s.halted
    ensures var o := Executed(c, t);
            var r := o.s;
            if RunsInShell(c) then r.children == [] && o.inShell == Some(Base(c, t))
            else
              && o.inShell == None && SegsRight(r.children, c.nonEmpty)
              && |r.children| == |r.ends| + (if LastDone(c, |c.nonEmpty|) then 1 else 0)
              && forall j :: 0 <= j < |r.children| ==> ChildWired(c, t, r.ends, j, r.children[j].table)
  {
    hide LowestFree, ChildTable, Spawned;
    RunCases(c, t);
    if Alone(c) {
      AloneWired(c, t);
    } else if LoopRun(c, t) {
      hide Executed, Start, Base, Holds, EntryRight, ChildWired;
      LoopWired(c, t);
      CloseListEffect(Spawned(c, t), 0);
      assert c.nonEmpty[..|c.nonEmpty|] == c.nonEmpty;
    }
  }

  lemma AloneWired(c: Plan, t: Table)
    requires Std(t) && Alone(c) && !RunAlone(c, t).s.halted
    ensures Base(c, t) == t
    ensures var o := RunAlone(c, t);
            if RunsInShell(c) then o.s.children == [] && o.inShell == Some(t)
            else
              && o.inShell == None && SegsRight(o.s.children, c.nonEmpty)
              && |o.s.children| == (if LastDone(c, 1) then 1 else 0)
              && forall j :: 0 <= j < |o.s.children| ==> ChildWired(c, t, [], j, o.s.children[j].table)
  {
    assert c.nonEmpty[..0] == [];
    assert Indices(c.nonEmpty) == if c.nonEmpty[0] then [0] else [];
  }

  // What a child reads and writes, by its place among the children: the pipes of its
  // neighbours, and at the ends the files of the redirects or what the shell has.
  ghost predicate ReadsAndWrites(t: Table, inFile: bool, outFile: bool, j: nat, last: bool, table: Table)
    requires Std(t)
  {
    && 0 in table && table[0] == (if j > 0 then ReadEnd(j - 1) else if inFile then InFile else t[0])
    && 1 in table && table[1] == (if !last then WriteEnd(j) else if outFile then OutFile else t[1])
    && 2 in table && table[2] == t[2]
  }

  ghost predicate ChildrenInOrder(children: seq<Child>, b: seq<bool>) {
    && (forall i, j :: 0 <= i < j < |children| ==> children[i].seg < children[j].seg)
    && (forall k: nat :: (exists j :: 0 <= j < |children| && children[j].seg == k) <==> k < |b| && b[k])
  }

  // The same without the list of pipes: the one child that writes no pipe is that of the
  // line's last segment.
  lemma RunReads(c: Plan, t: Table)
    requires Std(t) && !Executed(c, t).s.halted && !RunsInShell(c)
    ensures var o := Executed(c, t);
            && o.inShell == None && ChildrenInOrder(o.s.children, c.nonEmpty)
            && forall j :: 0 <= j < |o.s.children| ==>
                 var child := o.s.children[j];
                 ReadsAndWrites(t, c.inn.Opens?, c.out.Opens?, j, child.seg + 1 == |c.nonEmpty|, child.table)
  {
    RunWires(c, t);
    hide Executed, RunsInShell, Indices, ChildrenInOrder, ReadsAndWrites, ChildWired;
    var o := Executed(c, t);
    SegsInOrder(o.s.children, c.nonEmpty);
    forall j | 0 <= j < |o.s.children|
      ensures ReadsAndWrites(t, c.inn.Opens?, c.out.Opens?, j, o.s.children[j].seg + 1 == |c.nonEmpty|,
                             o.s.children[j].table)
    {
      LastIsLast(c.nonEmpty, j);
      assert ChildWired(c, t, o.s.ends, j, o.s.children[j].table);
      ChildReads(c, t, o.s.ends, j, o.s.children[j].table);
    }
  }

  lemma ChildReads(c: Plan, t: Table, ends: seq<Ends>, j: nat, table: Table)
    requires Std(t) && ChildWired(c, t, ends, j, table)
    ensures ReadsAndWrites(t, c.inn.Opens?, c.out.Opens?, j, j >= |ends|, table)
  {
  }

  lemma SegsInOrder(children: seq<Child>, b: seq<bool>)
    requires SegsRight(children, b)
    ensures ChildrenInOrder(children, b)
  {
    hide Indices;
    IndicesIncrease(b);
    forall k: nat | k < |b| && b[k] ensures exists j :: 0 <= j < |children| && children[j].seg == k {
      var j := IndexOf(b, k);
      assert children[j].seg == k;
    }
  }

  lemma {:induction false} IndicesIncrease(b: seq<bool>)
    ensures forall i, j :: 0 <= i < j < |Indices(b)| ==> Indices(b)[i] < Indices(b)[j]
  {
    if b != [] {
      IndicesIncrease(b[..|b| - 1]);
    }
  }

  lemma {:induction false} IndexOf(b: seq<bool>, k: nat) returns (j: nat)
    requires k < |b| && b[k]
    ensures j < |Indices(b)| && Indices(b)[j] == k
  {
    if k == |b| - 1 {
      j := |Indices(b)| - 1;
    } else {
      j := IndexOf(b[..|b| - 1], k);
    }
  }

  // Only the last position found can be the last one of all.
  lemma LastIsLast(b: seq<bool>, j: nat)
    requires j < |Indices(b)|
    ensures Indices(b)[j] + 1 == |b| <==> b[|b| - 1] && j == |Indices(b)| - 1
  {
    IndicesIncrease(b);
    if b[|b| - 1] {
      var i := IndexOf(b, |b| - 1);
    }
  }

  // So the output redirect reaches a command exactly when the last segment has arguments and
  // is not a builtin that the shell runs alone: that one writes where the shell does.
  lemma OutputReaches(c: Plan, t: Table)
    requires Std(t) && !Executed(c, t).s.halted && c.out.Opens?
    ensures var r := Executed(c, t).s;
            (exists j :: 0 <= j < |r.children| && 1 in r.children[j].table && r.children[j].table[1] == OutFile) <==>
            LastDone(c, |c.nonEmpty|) && !BuiltinAlone(c)
    ensures BuiltinAlone(c) ==>
              var own := Executed(c, t).inShell;
              own.Some? && 1 in own.value && own.value[1] == t[1]
  {
    RunWires(c, t);
    BaseFacts(c, t);
    hide Executed, Base, LowestFree;
    var r := Executed(c, t).s;
    if LastDone(c, |c.nonEmpty|) && !BuiltinAlone(c) {
      var j := |r.ends|;
      assert ChildWired(c, t, r.ends, j, r.children[j].table);
    }
    forall j | 0 <= j < |r.children| && 1 in r.children[j].table && r.children[j].table[1] == OutFile
      ensures LastDone(c, |c.nonEmpty|)
    {
      assert ChildWired(c, t, r.ends, j, r.children[j].table);
    }
  }

  // The parent waits for its children in order, or makes the last one a job.
  lemma ParentWaits(c: Plan, t: Table)
    requires Std(t) && !Executed(c, t).s.halted
    ensures var o := Executed(c, t);
            var pids := Pids(o.s.children);
            && o.waited == (if c.background then [] else pids)
            && o.job == if c.background && pids != [] then Some(pids[|pids| - 1]) else None
  {
    hide Spawned, Start;
    RunCases(c, t);
    if LoopRun(c, t) {
      LoopWired(c, t);
      CloseListEffect(Spawned(c, t), 0);
    } else if BuiltinAlone(c) {
      assert Executed(c, t).s.children == [] by { BuiltinFacts(c, t); }
    }
  }

  lemma BuiltinFacts(c: Plan, t: Table)
    requires BuiltinAlone(c)
    ensures RunBuiltin(c, t).s.children == []
    ensures RunBuiltin(c, t).s.closed ==
            Start(c, t).closed + (if StdoutFd(c, t) > 2 then [StdoutFd(c, t)] else []) +
            (if StdinFd(c, t) > 2 then [StdinFd(c, t)] else [])
  {
    hide LowestFree, StdinFd, StdoutFd, Base;
    Unit(Start(c, t).closed);
  }

  // A consequence: every child that reads from a pipe also holds that pipe's write end under
  // another number, so its input cannot reach end-of-file while it runs.
  lemma ReadersHoldTheirWriter(c: Plan, t: Table, j: nat)
    requires Std(t) && !Executed(c, t).s.halted && 0 < j < |Executed(c, t).s.children|
    ensures var child := Executed(c, t).s.children[j].table;
            && 0 in child && child[0] == ReadEnd(j - 1)
            && exists fd :: fd > 2 && fd in child && child[fd] == WriteEnd(j - 1)
  {
    RunWires(c, t);
    hide Executed;
    var r := Executed(c, t).s;
    assert ChildWired(c, t, r.ends, j, r.children[j].table);
    assert r.children[j].table[r.ends[j - 1].w] == WriteEnd(j - 1);
  }

  // Every child has the process id that fork gave for its segment.
  ghost predicate PidsRight(c: Plan, children: seq<Child>) {
    forall j :: 0 <= j < |children| ==> children[j].pid == c.pid(children[j].seg)
  }

  lemma ChildPids(c: Plan, t: Table)
    ensures PidsRight(c, Executed(c, t).s.children)
  {
    hide Spawn, CloseList, LowestFree, Base;
    if !Alone(c) && !BuiltinAlone(c) {
      ChildPidsFrom(c, t, Start(c, t), 0);
      CloseListEffect(Spawned(c, t), 0);
    } else if BuiltinAlone(c) {
      BuiltinFacts(c, t);
    }
  }

  lemma {:induction false} ChildPidsFrom(c: Plan, t: Table, s: State, k: nat)
    requires PidsRight(c, s.children)
    ensures PidsRight(c, SpawnFrom(c, t, s, k).children)
    decreases |c.nonEmpty| - k
  {
    hide Spawn;
    if k < |c.nonEmpty| && !s.halted {
      SpawnChildren(c, t, s, k);
      ChildPidsFrom(c, t, Spawn(c, t, s, k), k + 1);
    }
  }

  lemma SpawnChildren(c: Plan, t: Table, s: State, k: nat)
    requires !s.halted
    ensures var r := Spawn(c, t, s, k);
            if r.halted || k >= |c.nonEmpty| || !c.nonEmpty[k] then r.children == s.children
            else exists child :: r.children == s.children + [child] && child.seg == k && child.pid == c.pid(k)
  {
    hide LowestFree, NewEnds, Base, StdinFd, StdoutFd, ChildTable;
  }

  // ----- Runs in which a call fails -----

  // A redirect that cannot be opened: nothing runs, and nothing stays open, but for the input
  // file when the output file is the one that failed.
  lemma OpenFails(c: Plan, t: Table)
    requires Std(t) && (c.out.Fails? || c.inn.Fails?)
    ensures var o := Executed(c, t);
            && o.s.halted && o.s.children == [] && o.inShell == None && o.waited == [] && o.job == None
            && o.s.fds == if c.out.Fails? && c.inn.Opens? then t[LowestFree(t) := InFile] else t
  {
    var s := Start(c, t);
    assert Executed(c, t).s == s;
    if !c.out.Fails? && c.out.Opens? {
      BaseFacts(c, t);
      assert s.fds == t;
    }
  }

  // Does segment k make a call that fails?
  predicate FailsAt(c: Plan, k: nat)
    requires k < |c.nonEmpty|
  {
    c.nonEmpty[k] && (!c.forkOk(k) || (!IsLast(c, k) && !c.pipeOk(k)))
  }

  lemma {:induction false} ReachesSegment(c: Plan, t: Table, s: State, k: nat, m: nat) returns (r: State)
    requires Std(t) && k <= m <= |c.nonEmpty| && Wired(c, t, s, k)
    requires forall j :: k <= j < m ==> !FailsAt(c, j)
    ensures Wired(c, t, r, m) && SpawnFrom(c, t, s, k) == SpawnFrom(c, t, r, m)
    decreases m - k
  {
    hide Wired, Spawn;
    r := s;
    if k < m {
      NotHalted(c, t, s, k);
      SpawnHalts(c, t, s, k);
      assert !FailsAt(c, k);
      SpawnKeepsWired(c, t, s, k);
      r := ReachesSegment(c, t, Spawn(c, t, s, k), k + 1, m);
    }
  }

  lemma PipeFails(c: Plan, t: Table, s: State, k: nat)
    requires k < |c.nonEmpty| && c.nonEmpty[k] && !IsLast(c, k) && !c.pipeOk(k)
    ensures Spawn(c, t, s, k) == s.(halted := true)
  {
  }

  lemma ForkFails(c: Plan, t: Table, s: State, k: nat)
    requires k < |c.nonEmpty| && c.nonEmpty[k] && (IsLast(c, k) || c.pipeOk(k)) && !c.forkOk(k)
    ensures var s1 := MakePipe(c, s, k);
            var curWrite := CurWrite(c, t, s, k);
            Spawn(c, t, s, k) ==
            TwoCloses(s1, curWrite, curWrite > 2, s.prevRead, s.prevRead > 2 && s.prevRead != StdinFd(c, t))
            .(halted := true)
  {
    hide LowestFree, NewEnds, Base, StdinFd, StdoutFd, ChildTable;
  }

  function TwoCloses(s: State, w: nat, first: bool, r: nat, second: bool): State {
    var s2 := if first then CloseFd(s, w) else s;
    if second then CloseFd(s2, r) else s2
  }

  lemma TwoClosesEffect(s: State, w: nat, first: bool, r: nat, second: bool)
    ensures var gone := (if first then [w] else []) + (if second then [r] else []);
            var s3 := TwoCloses(s, w, first, r, second);
            && s3 == s.(fds := s3.fds, closed := s.closed + gone) && Without(s3.fds, s.fds, gone)
  {
    hide Without;
    var one, two := if first then [w] else [], if second then [r] else [];
    var s2 := if first then CloseFd(s, w) else s;
    WithoutOne(s.fds, w);
    WithoutOne(s2.fds, r);
    WithoutTwice(s.fds, s2.fds, TwoCloses(s, w, first, r, second).fds, one, two);
    Assoc(s.closed, one, two);
    Unit(s.closed);
  }

  // What the failing iteration closes: nothing after a failed pipe call, otherwise the
  // descriptors that the child would have got, but for the redirect's input file.
  lemma FailingSpawn(c: Plan, t: Table, s: State, k: nat)
    requires Std(t) && k < |c.nonEmpty| && Wired(c, t, s, k) && FailsAt(c, k)
    ensures var r := Spawn(c, t, s, k);
            var n := |s.children|;
            && r.halted && r.children == s.children && n == |s.ends|
            && (!IsLast(c, k) && !c.pipeOk(k) ==> r == s.(halted := true))
            && (IsLast(c, k) || c.pipeOk(k) ==>
                  && r.ends == MakePipe(c, s, k).ends && |r.ends| == n + (if IsLast(c, k) then 0 else 1)
                  && r.closed == (if n < |r.ends| then [r.ends[n].w] else if c.out.Opens? then [StdoutFd(c, t)] else [])
                                 + (if n > 0 then [r.ends[n - 1].r] else [])
                  && Holds(Base(c, t), MakePipe(c, s, k).fds, r.ends)
                  && Without(r.fds, MakePipe(c, s, k).fds, r.closed))
  {
    NotHalted(c, t, s, k);
    SpawnHalts(c, t, s, k);
    PipeMade(c, t, s, k);
    if IsLast(c, k) || c.pipeOk(k) {
      FailingFork(c, t, s, k);
    } else {
      PipeFails(c, t, s, k);
    }
  }

  lemma FailingFork(c: Plan, t: Table, s: State, k: nat)
    requires Std(t) && k < |c.nonEmpty| && Wired(c, t, s, k) && FailsAt(c, k) && (IsLast(c, k) || c.pipeOk(k))
    ensures var r := Spawn(c, t, s, k);
            var n := |s.children|;
            && r.halted && r.children == s.children && n == |s.ends|
            && r.ends == MakePipe(c, s, k).ends && |r.ends| == n + (if IsLast(c, k) then 0 else 1)
            && r.closed == (if n < |r.ends| then [r.ends[n].w] else if c.out.Opens? then [StdoutFd(c, t)] else [])
                           + (if n > 0 then [r.ends[n - 1].r] else [])
            && Holds(Base(c, t), MakePipe(c, s, k).fds, r.ends)
            && Without(r.fds, MakePipe(c, s, k).fds, r.closed)
  {
    hide LowestFree, NewEnds, Base, StdinFd, StdoutFd, ChildTable, ChildWired, EntryRight, MakePipe, Holds, Without,
         SegsRight, Spawn, TwoCloses, IsEnd, Extends;
    PipeMade(c, t, s, k);
    ForkFails(c, t, s, k);
    var s1 := MakePipe(c, s, k);
    TwoClosesEffect(s1, CurWrite(c, t, s, k), CurWrite(c, t, s, k) > 2, s.prevRead,
                    s.prevRead > 2 && s.prevRead != StdinFd(c, t));
    Sides(c, t, s, k);
    Unit(if s.prevRead > 2 && s.prevRead != StdinFd(c, t) then [s.prevRead] else []);
  }

  // The two descriptors of a child: which of them are pipe ends or the output file.
  lemma Sides(c: Plan, t: Table, s: State, k: nat)
    requires Std(t) && k < |c.nonEmpty| && Wired(c, t, s, k) && c.nonEmpty[k]
    ensures var n := |s.ends|;
            var ends := MakePipe(c, s, k).ends;
            && CurWrite(c, t, s, k) == (if n < |ends| then ends[n].w else StdoutFd(c, t))
            && (CurWrite(c, t, s, k) > 2 <==> n < |ends| || c.out.Opens?)
            && (n > 0 ==> n <= |ends| && s.prevRead == ends[n - 1].r)
            && (s.prevRead > 2 && s.prevRead != StdinFd(c, t) <==> n > 0)
  {
    hide LowestFree, NewEnds, ChildTable, ChildWired, EntryRight, MakePipe, Holds, SegsRight;
    BaseFacts(c, t);
    hide Base, StdinFd, StdoutFd;
    PipeMade(c, t, s, k);
    var s1 := MakePipe(c, s, k);
    EndsAreHigh(c, t, s1.fds, s1.ends);
    if s.ends != [] {
      EarlierEnd(s.ends, s1.ends);
      EndIsNew(Base(c, t), s1.fds, s1.ends, |s.ends| - 1);
    }
  }

  lemma EarlierEnd(ends: seq<Ends>, more: seq<Ends>)
    requires ends != [] && (more == ends || (|more| > |ends| && more[..|ends|] == ends))
    ensures more[|ends| - 1] == ends[|ends| - 1]
  {
    assert more[..|ends|] == ends;
  }

  // The first failing segment of a loop that the shell enters: the children before it are
  // wired and running, nothing is waited for and no job is entered; the pipe ends stay open
  // but for the two that were closed.
  lemma LoopFails(c: Plan, t: Table, k: nat)
    requires Std(t) && !Alone(c) && !BuiltinAlone(c) && !c.out.Fails? && !c.inn.Fails?
    requires k < |c.nonEmpty| && FailsAt(c, k) && forall j :: 0 <= j < k ==> !FailsAt(c, j)
    ensures var o := Executed(c, t);
            var r := o.s;
            var n := |r.children|;
            && r.halted && o.inShell == None && o.waited == [] && o.job == None
            && SegsRight(r.children, c.nonEmpty[..k])
            && (forall j :: 0 <= j < n ==> ChildWired(c, t, r.ends, j, r.children[j].table))
            && (if !IsLast(c, k) && !c.pipeOk(k) then |r.ends| == n && r.closed == []
                else
                  && |r.ends| == n + (if IsLast(c, k) then 0 else 1)
                  && r.closed == (if n < |r.ends| then [r.ends[n].w] else if c.out.Opens? then [StdoutFd(c, t)] else [])
                                 + (if n > 0 then [r.ends[n - 1].r] else []))
            && (forall fd :: fd in r.fds <==> (fd in Base(c, t) || IsEnd(r.ends, fd)) && fd !in r.closed)
  {
    hide Wired, Spawn, LowestFree, Base, MakePipe, ChildWired, StdoutFd, StdinFd;
    StartWired(c, t);
    var s := ReachesSegment(c, t, Start(c, t), 0, k);
    FailingSpawn(c, t, s, k);
    NotHalted(c, t, s, k);
    var r := Spawn(c, t, s, k);
    HaltedStays(c, t, r, k + 1);
    assert Executed(c, t).s == r;
    FailedChildren(c, t, s, k);
    FailedTable(c, t, s, k);
  }

  lemma FailedChildren(c: Plan, t: Table, s: State, k: nat)
    requires Std(t) && k < |c.nonEmpty| && Wired(c, t, s, k) && FailsAt(c, k)
    ensures var r := Spawn(c, t, s, k);
            && r.children == s.children && SegsRight(r.children, c.nonEmpty[..k])
            && forall j :: 0 <= j < |r.children| ==> ChildWired(c, t, r.ends, j, r.children[j].table)
  {
    hide Spawn, MakePipe, ChildWired, Holds, EntryRight, Base, SegsRight, StdinFd, StdoutFd, LowestFree, Without;
    if IsLast(c, k) || c.pipeOk(k) {
      FailingFork(c, t, s, k);
      PipeMade(c, t, s, k);
      assert s.ends[..|s.ends|] == s.ends;
      var more := MakePipe(c, s, k).ends;
      OldChildren(c, t, s.ends, more, s.children, s.toClose);
    } else {
      PipeFails(c, t, s, k);
    }
  }

  lemma FailedTable(c: Plan, t: Table, s: State, k: nat)
    requires Std(t) && k < |c.nonEmpty| && Wired(c, t, s, k) && FailsAt(c, k)
    ensures var r := Spawn(c, t, s, k);
            forall fd :: fd in r.fds <==> (fd in Base(c, t) || IsEnd(r.ends, fd)) && fd !in r.closed
  {
    FailingSpawn(c, t, s, k);
    hide Spawn, MakePipe, ChildWired, EntryRight, Base, IsEnd;
    if !IsLast(c, k) && !c.pipeOk(k) {
      HeldAre(Base(c, t), s.fds, s.ends);
    } else {
      HeldAre(Base(c, t), MakePipe(c, s, k).fds, Spawn(c, t, s, k).ends);
    }
  }

  lemma HeldAre(base: Table, fds: Table, ends: seq<Ends>)
    requires Holds(base, fds, ends)
    ensures forall fd :: fd in fds <==> fd in base || IsEnd(ends, fd)
  {
  }

  // ----- What the parent closes -----

  // Only descriptors that were not there before the call, none of 0, 1, 2, none twice.
  ghost predicate SafeCloses(t: Table, closed: seq<nat>) {
    && (forall i :: 0 <= i < |closed| ==> closed[i] > 2 && closed[i] !in t)
    && (forall i, j :: 0 <= i < j < |closed| ==> closed[i] != closed[j])
  }

  // The read ends of pipes from..from + count.
  function Reads(ends: seq<Ends>, from: nat, count: nat): (r: seq<nat>)
    requires from + count <= |ends|
    ensures |r| == count && forall i :: 0 <= i < count ==> r[i] == ends[from + i].r
    decreases count
  {
    if count == 0 then [] else [ends[from].r] + Reads(ends, from + 1, count - 1)
  }

  // The close list of a run without failures: the first pipe's write end, then every read end
  // that a child was given.
  function Listed(ends: seq<Ends>, children: nat): (r: seq<nat>)
    requires children <= |ends| + 1
    ensures |r| == if ends == [] then 0 else children
    ensures forall i :: 0 <= i < |r| ==> r[i] == if i == 0 then ends[0].w else ends[i - 1].r
  {
    if ends == [] || children == 0 then [] else [ends[0].w] + Reads(ends, 0, children - 1)
  }

  lemma {:induction false} ValuesOfReads(ends: seq<Ends>, list: seq<Option<nat>>, from: nat)
    requires 1 <= from <= |list| <= |ends| + 1
    requires forall j :: 0 <= j < |list| ==> EntryRight(ends, j, list[j])
    requires forall j :: 0 <= j < |ends| ==> ends[j].r > 2
    ensures Values(list, from) == Reads(ends, from - 1, |list| - from)
    decreases |list| - from
  {
    if from < |list| {
      assert EntryRight(ends, from, list[from]);
      ValuesOfReads(ends, list, from + 1);
    }
  }

  lemma ValuesAreListed(c: Plan, t: Table, s: State)
    requires Std(t) && Wired(c, t, s, |c.nonEmpty|)
    ensures |s.children| <= |s.ends| + 1 && Values(s.toClose, 0) == Listed(s.ends, |s.children|)
  {
    EndsAreHigh(c, t, s.fds, s.ends);
    hide ChildWired, Base, Holds;
    ListedEntries(s.ends, s.toClose);
  }

  lemma ListedEntries(ends: seq<Ends>, list: seq<Option<nat>>)
    requires |list| <= |ends| + 1 && forall j :: 0 <= j < |list| ==> EntryRight(ends, j, list[j])
    requires forall j :: 0 <= j < |ends| ==> ends[j].r > 2 && ends[j].w > 2
    ensures Values(list, 0) == Listed(ends, |list|)
  {
    if list != [] {
      assert EntryRight(ends, 0, list[0]);
      ValuesOfReads(ends, list, 1);
      assert Values(list, 0) == (if ends == [] then [] else [ends[0].w]) + Values(list, 1);
    }
  }

  // Main result: whatever calls fail, the parent closes only descriptors that it opened
  // itself, each at most once, and never 0, 1 or 2.
  lemma ClosesAreSafe(c: Plan, t: Table)
    requires Std(t)
    ensures SafeCloses(t, Executed(c, t).s.closed)
  {
    hide SafeCloses, Start, Spawned, CloseList;
    StartCloses(c, t);
    if Alone(c) {
      assert SafeCloses(t, []) by { NothingClosed(t); }
    } else if BuiltinAlone(c) {
      BuiltinFacts(c, t);
      Unit(if StdoutFd(c, t) > 2 then [StdoutFd(c, t)] else []);
    } else if !Start(c, t).halted {
      LoopCloses(c, t);
    }
  }

  lemma NothingClosed(t: Table)
    ensures SafeCloses(t, [])
  {
  }

  lemma LoopCloses(c: Plan, t: Table)
    requires Std(t) && !Start(c, t).halted
    ensures var r := Spawned(c, t); SafeCloses(t, if r.halted then r.closed else CloseList(r, 0).closed)
  {
    hide SafeCloses, Start, SpawnFrom, CloseList;
    StartWired(c, t);
    hide Wired;
    ClosesFrom(c, t, Start(c, t), 0);
  }

  // What a failed open, or a builtin, leads to closing.
  lemma StartCloses(c: Plan, t: Table)
    requires Std(t)
    ensures SafeCloses(t, Start(c, t).closed) && (!Start(c, t).halted ==> Start(c, t).closed == [])
    ensures !Start(c, t).halted ==>
              SafeCloses(t, (if StdoutFd(c, t) > 2 then [StdoutFd(c, t)] else []) +
                            (if StdinFd(c, t) > 2 then [StdinFd(c, t)] else []))
  {
    BaseFacts(c, t);
    if c.out.Opens? && c.inn.Opens? {
      assert StdoutFd(c, t) in AfterOut(c, t);
    }
  }

  lemma {:induction false} ClosesFrom(c: Plan, t: Table, s: State, k: nat)
    requires Std(t) && k <= |c.nonEmpty| && Wired(c, t, s, k)
    ensures var r := SpawnFrom(c, t, s, k);
            SafeCloses(t, if r.halted then r.closed else CloseList(r, 0).closed)
    decreases |c.nonEmpty| - k
  {
    hide Wired, Spawn;
    NotHalted(c, t, s, k);
    if k == |c.nonEmpty| {
      ListIsSafe(c, t, s);
    } else {
      var next := Spawn(c, t, s, k);
      HaltedStays(c, t, next, k + 1);
      if next.halted {
        FailureIsSafe(c, t, s, k);
      } else {
        SpawnKeepsWired(c, t, s, k);
        ClosesFrom(c, t, next, k + 1);
      }
    }
  }

  // The closes of an iteration that fails.
  function FailureCloses(c: Plan, t: Table, s: State, k: nat): seq<nat>
    requires k < |c.nonEmpty|
  {
    var curWrite := CurWrite(c, t, s, k);
    (if curWrite > 2 then [curWrite] else []) +
    (if s.prevRead > 2 && s.prevRead != StdinFd(c, t) then [s.prevRead] else [])
  }

  lemma FailureShape(c: Plan, t: Table, s: State, k: nat)
    requires k < |c.nonEmpty| && Spawn(c, t, s, k).halted && !s.halted && s.closed == []
    ensures Spawn(c, t, s, k).closed == [] || Spawn(c, t, s, k).closed == FailureCloses(c, t, s, k)
  {
    hide LowestFree, NewEnds, Base, StdinFd, StdoutFd, ChildTable;
  }

  lemma FailureIsSafe(c: Plan, t: Table, s: State, k: nat)
    requires Std(t) && k < |c.nonEmpty| && Wired(c, t, s, k) && Spawn(c, t, s, k).halted
    ensures SafeCloses(t, Spawn(c, t, s, k).closed)
  {
    hide Spawn, StdinFd, CurWrite, Holds, ChildWired, EntryRight;
    FailureShape(c, t, s, k);
    ReadSide(c, t, s);
    WriteSide(c, t, s, k);
  }

  lemma ReadSide(c: Plan, t: Table, s: State)
    requires Std(t) && Holds(Base(c, t), s.fds, s.ends)
    requires s.prevRead == (if s.ends == [] then StdinFd(c, t) else s.ends[|s.ends| - 1].r)
    ensures s.prevRead > 2 && s.prevRead != StdinFd(c, t) ==> s.prevRead !in t
    ensures s.prevRead in s.fds
  {
    BaseFacts(c, t);
  }

  lemma WriteSide(c: Plan, t: Table, s: State, k: nat)
    requires Std(t) && k < |c.nonEmpty| && Wired(c, t, s, k)
    ensures CurWrite(c, t, s, k) > 2 ==> CurWrite(c, t, s, k) !in t
    ensures s.prevRead != StdinFd(c, t) ==> CurWrite(c, t, s, k) != s.prevRead
  {
    BaseFacts(c, t);
    if IsLast(c, k) {
      hide Base, StdinFd, StdoutFd;
    } else {
      NewEndsFresh(s.fds);
      ReadSide(c, t, s);
      hide LowestFree, Base, NewEnds, StdinFd, StdoutFd;
      assert CurWrite(c, t, s, k) == NewEnds(s.fds).w;
    }
  }

  lemma ListIsSafe(c: Plan, t: Table, s: State)
    requires Std(t) && Wired(c, t, s, |c.nonEmpty|)
    ensures SafeCloses(t, CloseList(s, 0).closed)
  {
    CloseListEffect(s, 0);
    ValuesAreListed(c, t, s);
    BaseFacts(c, t);
    EndsAreHigh(c, t, s.fds, s.ends);
    hide LowestFree, Base, StdinFd, StdoutFd, ChildWired, EntryRight, CloseList, Values;
    ListedIsSafe(t, Base(c, t), s.fds, s.ends, |s.children|);
    assert s.closed + Listed(s.ends, |s.children|) == Listed(s.ends, |s.children|);
  }

  lemma ListedIsSafe(t: Table, base: Table, fds: Table, ends: seq<Ends>, children: nat)
    requires Holds(base, fds, ends) && Extends(base, t) && children <= |ends| + 1
    requires forall j :: 0 <= j < |ends| ==> ends[j].r > 2 && ends[j].w > 2
    ensures SafeCloses(t, Listed(ends, children))
  {
    hide Listed;
    var closed := Listed(ends, children);
    forall i, j | 0 <= i < j < |closed|
      ensures closed[i] != closed[j]
    {
      assert fds[closed[j]] == ReadEnd(j - 1);
      assert fds[closed[i]] == if i == 0 then WriteEnd(0) else ReadEnd(i - 1);
    }
    forall i | 0 <= i < |closed|
      ensures closed[i] > 2 && closed[i] !in t
    {
      assert closed[i] !in base;
    }
  }

  // ----- What stays open in the parent -----

  // Every pipe's write end but the first one's, and the last read end if nobody reads it.
  ghost predicate Kept(ends: seq<Ends>, lastRead: bool, fd: nat) {
    (exists j :: 1 <= j < |ends| && ends[j].w == fd) ||
    (!lastRead && ends != [] && ends[|ends| - 1].r == fd)
  }

  // After a run without failures, in which the shell does not run the command itself, the
  // parent holds its old descriptors, the redirect files, and these.
  lemma WhatStaysOpen(c: Plan, t: Table)
    requires Std(t) && !Executed(c, t).s.halted && !RunsInShell(c)
    ensures var r := Executed(c, t).s;
            var last := LastDone(c, |c.nonEmpty|);
            && |r.ends| == Count(c.nonEmpty) - (if last then 1 else 0)
            && Extends(r.fds, Base(c, t))
            && (forall fd :: fd in r.fds <==> fd in Base(c, t) || Kept(r.ends, last, fd))
            && (forall fd :: Kept(r.ends, last, fd) ==> fd !in Base(c, t))
  {
    hide Spawned, Start, LowestFree, Base, Indices, Kept;
    RunCases(c, t);
    if Alone(c) {
      AloneWired(c, t);
      AloneKeeps(c, t);
    } else {
      LoopKeeps(c, t);
    }
  }

  lemma AloneKeeps(c: Plan, t: Table)
    requires Alone(c)
    ensures Count(c.nonEmpty) == (if LastDone(c, 1) then 1 else 0)
    ensures forall last, fd :: !Kept([], last, fd)
    ensures RunAlone(c, t).s.fds == t && RunAlone(c, t).s.ends == []
  {
    assert c.nonEmpty[..0] == [];
    assert Indices(c.nonEmpty) == if c.nonEmpty[0] then [0] else [];
  }

  lemma LoopKeeps(c: Plan, t: Table)
    requires Std(t) && LoopRun(c, t)
    ensures var r := Finish(c, Spawned(c, t)).s;
            var last := LastDone(c, |c.nonEmpty|);
            && Executed(c, t).s == r
            && |r.ends| == Count(c.nonEmpty) - (if last then 1 else 0)
            && Extends(r.fds, Base(c, t))
            && (forall fd :: fd in r.fds <==> fd in Base(c, t) || Kept(r.ends, last, fd))
            && (forall fd :: Kept(r.ends, last, fd) ==> fd !in Base(c, t))
  {
    hide Spawned, Start, LowestFree, Base, Indices, ChildWired, EntryRight, CloseList, Values, Kept, Extends, Listed,
         LoopRun;
    LoopWired(c, t);
    var s := Spawned(c, t);
    CloseListEffect(s, 0);
    assert c.nonEmpty[..|c.nonEmpty|] == c.nonEmpty;
    ValuesAreListed(c, t, s);
    StaysOpen(c, t, s.fds, s.ends, |s.children|, CloseList(s, 0).fds);
  }

  lemma StaysOpen(c: Plan, t: Table, fds: Table, ends: seq<Ends>, children: nat, after: Table)
    requires Std(t) && Holds(Base(c, t), fds, ends) && |ends| <= children <= |ends| + 1
    requires Without(after, fds, Listed(ends, children))
    ensures Extends(after, Base(c, t))
    ensures forall fd :: fd in after <==> fd in Base(c, t) || Kept(ends, children > |ends|, fd)
    ensures forall fd :: Kept(ends, children > |ends|, fd) ==> fd !in Base(c, t)
  {
    hide Base, Listed, Kept;
    var base := Base(c, t);
    forall fd | fd in base || Kept(ends, children > |ends|, fd)
      ensures fd !in Listed(ends, children) && fd in fds && (fd in base ==> !Kept(ends, children > |ends|, fd))
    {
      NotListed(base, fds, ends, children, fd);
    }
    forall fd | fd in after && fd !in base
      ensures Kept(ends, children > |ends|, fd)
    {
      OnlyKept(ends, children, fd);
    }
  }

  lemma NotListed(base: Table, fds: Table, ends: seq<Ends>, children: nat, fd: nat)
    requires Holds(base, fds, ends) && |ends| <= children <= |ends| + 1
    requires fd in base || Kept(ends, children > |ends|, fd)
    ensures fd in fds && fd !in Listed(ends, children)
    ensures fd in base ==> !Kept(ends, children > |ends|, fd)
  {
    hide Listed;
    var gone := Listed(ends, children);
    forall i | 0 <= i < |gone|
      ensures gone[i] != fd
    {
      assert gone[i] !in base && fds[gone[i]] == if i == 0 then WriteEnd(0) else ReadEnd(i - 1);
    }
  }

  lemma ListedHas(ends: seq<Ends>, children: nat, j: nat)
    requires j < |ends| && |ends| <= children <= |ends| + 1
    ensures ends[0].w in Listed(ends, children) && (j + 1 < children ==> ends[j].r in Listed(ends, children))
  {
    hide Listed;
    var gone := Listed(ends, children);
    assert gone[0] == ends[0].w;
    assert j + 1 < children ==> gone[j + 1] == ends[j].r;
  }

  lemma OnlyKept(ends: seq<Ends>, children: nat, fd: nat)
    requires IsEnd(ends, fd) && |ends| <= children <= |ends| + 1
    requires fd !in Listed(ends, children)
    ensures Kept(ends, children > |ends|, fd)
  {
    hide Listed;
    var j :| 0 <= j < |ends| && (ends[j].r == fd || ends[j].w == fd);
    ListedHas(ends, children, j);
    if ends[j].w == fd {
      assert j != 0;
    } else {
      assert j == |ends| - 1;
    }
  }

  lemma BuiltinRestores(c: Plan, t: Table)
    requires Std(t) && BuiltinAlone(c) && !Start(c, t).halted
    ensures RunBuiltin(c, t).s.fds == t
  {
    BaseFacts(c, t);
    assert forall fd :: fd in RunBuiltin(c, t).s.fds <==> fd in t;
  }

  // The parent's table is as before exactly when the shell ran the command itself, or there
  // were no redirects and at most two segments with arguments, the last of them at the end.
  lemma TableRestored(c: Plan, t: Table)
    requires Std(t) && !Executed(c, t).s.halted
    ensures Executed(c, t).s.fds == t <==>
            RunsInShell(c) ||
            (!c.out.Opens? && !c.inn.Opens? &&
             (Count(c.nonEmpty) == 0 || (LastDone(c, |c.nonEmpty|) && Count(c.nonEmpty) <= 2)))
  {
    if RunsInShell(c) {
      RunCases(c, t);
      if BuiltinAlone(c) {
        BuiltinRestores(c, t);
      }
    } else {
      WhatStaysOpen(c, t);
      BaseFacts(c, t);
      hide Executed, LowestFree, Base;
      var r := Executed(c, t).s;
      var last := LastDone(c, |c.nonEmpty|);
      BaseIs(c, t);
      if !last && r.ends != [] {
        assert Kept(r.ends, last, r.ends[|r.ends| - 1].r);
      }
      if |r.ends| > 1 {
        assert Kept(r.ends, last, r.ends[1].w);
      }
    }
  }

  lemma BaseIs(c: Plan, t: Table)
    ensures !c.out.Opens? && !c.inn.Opens? ==> Base(c, t) == t
  {
  }

  // A background line such as "a | &" leaves its only pipe's read end behind, with two
  // segments and no redirects.
  lemma ReadEndLeft(c: Plan, t: Table)
    requires Std(t) && c.nonEmpty == [true, false] && c.out.Absent? && c.inn.Absent? && c.pipeOk(0) && c.forkOk(0)
    ensures !Executed(c, t).s.halted && Executed(c, t).s.fds != t
  {
    HaltsIffCallsFail(c, t);
    TableRestored(c, t);
    hide Executed;
    assert c.nonEmpty[..1] == [true] && c.nonEmpty[..1][..0] == [];
    assert Indices([true]) == [0];
    assert Indices(c.nonEmpty) == Indices([true]);
  }
}
