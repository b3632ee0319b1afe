// A command line with operators, from its text to the processes it runs
// (src/pipeline/parse.rs and src/pipeline/exec.rs together).
module Pipeline {
  import opened Bytes
  import opened Io
  import opened Parse
  import opened Grammar
  import opened Exec
  import Jobs

  // The builtins that the shell runs itself even when they are redirected.
  predicate IsInProcess(word: bytes) {
    word == Ascii("cd") || word == Ascii("exit") || word == Ascii("pwd") || word == Ascii("help") ||
    word == Ascii("whoami") || word == Ascii("uname") || word == Ascii("ver") || word == Ascii("clear") ||
    word == Ascii("date")
  }

  // What the system calls answer.
  datatype Answers = Answers(outOpens: bool, inOpens: bool, pipeOk: nat -> bool, forkOk: nat -> bool, pid: nat -> Pid)

  function RedirectOf(file: Slice, opens: bool): Redirect {
    if file.len == 0 then Absent else if opens then Opens else Fails
  }

  function NonEmpty(segs: seq<seq<Slice>>): (r: seq<bool>)
    ensures |r| == |segs| && forall k :: 0 <= k < |r| ==> r[k] == (segs[k] != [])
  {
    seq(|segs|, k requires 0 <= k < |segs| => segs[k] != [])
  }

  function PlanOf(line: bytes, p: Parse.Pipeline, a: Answers): Plan {
    Plan(NonEmpty(p.segments),
         p.segments != [] && p.segments[0] != [] && IsInProcess(Text(line, p.segments[0][0])),
         p.background, RedirectOf(p.stdoutFile, a.outOpens), RedirectOf(p.stdinFile, a.inOpens),
         a.pipeOk, a.forkOk, a.pid)
  }

  method AllArgs(line: bytes, segs: seq<seq<Slice>>) returns (argvs: seq<seq<bytes>>)
    requires InLine(line, segs)
    ensures |argvs| == |segs| && forall k :: 0 <= k < |argvs| ==> argvs[k] == ArgTexts(line, segs[k])
  {
    hide ArgTexts;
    argvs := [];
    var k := 0;
    while k < |segs|
      invariant 0 <= k <= |segs| && |argvs| == k
      invariant forall j :: 0 <= j < k ==> argvs[j] == ArgTexts(line, segs[j])
    {
      var args := SegToArgs(line, segs[k]);
      argvs := argvs + [args];
      k := k + 1;
    }
  }

  // Parses a line and runs it; the arguments of segment k are those of its command.
  method RunLine(line: bytes, sh: Parent, a: Answers) returns (halted: bool, argvs: seq<seq<bytes>>)
    requires sh.Idle()
    modifies sh
    ensures var p := Parsed(line);
            && Outcome(sh.Now(halted), sh.inShell, sh.waited, sh.job) == Executed(PlanOf(line, p, a), old(sh.fds))
            && |argvs| == |p.segments| && forall k :: 0 <= k < |argvs| ==> argvs[k] == ArgTexts(line, p.segments[k])
  {
    hide Parsed, Executed, PlanOf, ArgTexts;
    var p := ParseLine(line);
    ParsedInLine(line);
    argvs := AllArgs(line, p.segments);
    halted := sh.Execute(PlanOf(line, p, a));
  }

  // The whole call: finished jobs are reaped first, and a background line's last process is
  // added in the end; waits are the answers of waitpid.
  method RunWithJobs(line: bytes, sh: Parent, jobs: Jobs.JobTable, waits: seq<int>, a: Answers)
    returns (halted: bool, argvs: seq<seq<bytes>>)
    requires sh.Idle() && jobs.Valid() && sh as object != jobs
    modifies sh, jobs, jobs.ids, jobs.pids, jobs.running
    ensures var o := Outcome(sh.Now(halted), sh.inShell, sh.waited, sh.job);
            var reaped := Jobs.State(Jobs.Reaped(old(jobs.jobs), waits), old(jobs.nextId));
            && o == Executed(PlanOf(line, Parsed(line), a), old(sh.fds))
            && jobs.Valid()
            && Jobs.State(jobs.jobs, jobs.nextId) ==
               if o.job.Some? then Jobs.Add(reaped, o.job.value).0 else reaped
    ensures |argvs| == |Parsed(line).segments|
    ensures forall k :: 0 <= k < |argvs| ==> argvs[k] == ArgTexts(line, Parsed(line).segments[k])
  {
    hide Parsed, Executed, Jobs.Reaped;
    jobs.JobReap(waits);
    halted, argvs := RunLine(line, sh, a);
    if sh.job.Some? {
      var id := jobs.JobAdd(sh.job.value);
    }
  }

  // The words of a command, each cut to 63 bytes.
  function Cut(words: seq<bytes>): (r: seq<bytes>)
    ensures |r| == |words| && forall k :: 0 <= k < |r| ==> r[k] == Take(words[k], Parse.ARG_MAX)
  {
    seq(|words|, k requires 0 <= k < |words| => Take(words[k], Parse.ARG_MAX))
  }

  lemma CutTexts(line: bytes, args: seq<Slice>)
    ensures ArgTexts(line, args) == Cut(Texts(line, args))
  {
  }

  lemma TargetAbsent(line: bytes, file: Slice, opens: bool)
    requires SliceIn(line, file)
    ensures RedirectOf(file, opens).Absent? <==> Text(line, file) == []
  {
  }

  // The words of the commands of a sentence.
  function Commands(t: Sentence): seq<seq<bytes>> {
    DropAmpersand(SegWords(t.segs))
  }

  // What the printed form of a sentence is parsed to, as the executor sees it.
  lemma SentencePlan(t: Sentence, a: Answers)
    requires SentenceOk(t)
    ensures var line := SentenceText(t);
            var p := Parsed(line);
            var c := PlanOf(line, p, a);
            && |p.segments| == |c.nonEmpty| == |Commands(t)|
            && (forall k :: 0 <= k < |p.segments| ==>
                  (c.nonEmpty[k] <==> Commands(t)[k] != []) && ArgTexts(line, p.segments[k]) == Cut(Commands(t)[k]))
            && c.background == EndsInAmpersand(SegWords(t.segs))
            && (c.out.Absent? <==> SegTarget(t.segs, GREATER, []) == [])
            && (c.inn.Absent? <==> SegTarget(t.segs, LESS, []) == [])
  {
    hide Parsed, SentenceText, SegWords, SegTarget, IsInProcess, Text, ArgTexts, DropAmpersand, EndsInAmpersand;
    var line := SentenceText(t);
    var p := Parsed(line);
    ParseInvertsPrint(t);
    ParsedInLine(line);
    TargetAbsent(line, p.stdoutFile, a.outOpens);
    TargetAbsent(line, p.stdinFile, a.inOpens);
    forall k | 0 <= k < |p.segments|
      ensures ArgTexts(line, p.segments[k]) == Cut(Commands(t)[k]) && |p.segments[k]| == |Commands(t)[k]|
    {
      CutTexts(line, p.segments[k]);
      assert SegTexts(line, p.segments)[k] == Texts(line, p.segments[k]);
    }
  }

  // Main result: for a printed sentence, in a run without failures, the shell runs the only
  // command itself, or each child is wired to its neighbours and runs the words of its
  // segment; the children are the segments with words, in order.
  lemma PipelineRuns(t: Sentence, fds: Table, a: Answers)
    requires SentenceOk(t) && Std(fds)
    requires !Executed(PlanOf(SentenceText(t), Parsed(SentenceText(t)), a), fds).s.halted
    ensures var line := SentenceText(t);
            var p := Parsed(line);
            var c := PlanOf(line, p, a);
            var o := Executed(c, fds);
            && |p.segments| == |Commands(t)|
            && if RunsInShell(c) then
                 o.s.children == [] && o.inShell == Some(Base(c, fds)) && |Commands(t)| == 1 &&
                 ArgTexts(line, p.segments[0]) == Cut(Commands(t)[0])
               else
                 && SegsRight(o.s.children, c.nonEmpty)
                 && forall j :: 0 <= j < |o.s.children| ==>
                      var seg := o.s.children[j].seg;
                      && seg < |Commands(t)| && Commands(t)[seg] != []
                      && ChildWired(c, fds, o.s.ends, j, o.s.children[j].table)
                      && ArgTexts(line, p.segments[seg]) == Cut(Commands(t)[seg])
  {
    SentencePlan(t, a);
    hide Parsed, SentenceText, PlanOf, Commands, ArgTexts, Cut, ChildWired, Base, Executed;
    var line := SentenceText(t);
    RunWires(PlanOf(line, Parsed(line), a), fds);
  }

  // ----- From the words and the answers alone -----

  // Does the shell run the sentence itself? It is one command with words, and either without
  // redirects and not in the background, or redirected and an in-process builtin.
  predicate ShellRuns(t: Sentence) {
    && |Commands(t)| == 1 && Commands(t)[0] != []
    && if SegTarget(t.segs, GREATER, []) == [] && SegTarget(t.segs, LESS, []) == []
       then !EndsInAmpersand(SegWords(t.segs)) else IsInProcess(Commands(t)[0][0])
  }

  // Does the command k make a pipe or fork call that fails?
  predicate CommandFails(t: Sentence, a: Answers, k: nat)
    requires k < |Commands(t)|
  {
    Commands(t)[k] != [] && (!a.forkOk(k) || (k + 1 < |Commands(t)| && !a.pipeOk(k)))
  }

  predicate OpensFail(t: Sentence, a: Answers) {
    (SegTarget(t.segs, GREATER, []) != [] && !a.outOpens) || (SegTarget(t.segs, LESS, []) != [] && !a.inOpens)
  }

  lemma FirstWord(t: Sentence)
    requires SentenceOk(t)
    ensures var line := SentenceText(t);
            var p := Parsed(line);
            && |p.segments| == |Commands(t)|
            && (p.segments != [] ==>
                  |p.segments[0]| == |Commands(t)[0]| &&
                  (p.segments[0] != [] ==> Text(line, p.segments[0][0]) == Commands(t)[0][0]))
  {
    hide Parsed, SentenceText, SegWords, Text, DropAmpersand;
    var line := SentenceText(t);
    var p := Parsed(line);
    ParseInvertsPrint(t);
    if p.segments != [] {
      assert SegTexts(line, p.segments)[0] == Texts(line, p.segments[0]);
    }
  }

  // The plan of a sentence.
  lemma SentenceRedirects(t: Sentence, a: Answers)
    requires SentenceOk(t)
    ensures var c := PlanOf(SentenceText(t), Parsed(SentenceText(t)), a);
            var out, inn := SegTarget(t.segs, GREATER, []), SegTarget(t.segs, LESS, []);
            && |c.nonEmpty| == |Commands(t)|
            && (forall k :: 0 <= k < |c.nonEmpty| ==> (c.nonEmpty[k] <==> Commands(t)[k] != []))
            && (c.out.Opens? <==> out != [] && a.outOpens) && (c.out.Fails? <==> out != [] && !a.outOpens)
            && (c.inn.Opens? <==> inn != [] && a.inOpens) && (c.inn.Fails? <==> inn != [] && !a.inOpens)
            && c.pipeOk == a.pipeOk && c.forkOk == a.forkOk && c.pid == a.pid
            && (RunsInShell(c) <==> ShellRuns(t))
  {
    hide Parsed, SentenceText, SegWords, SegTarget, IsInProcess, Text, ArgTexts, DropAmpersand, EndsInAmpersand,
         Commands;
    SentencePlan(t, a);
    FirstWord(t);
  }

  // Main result: which runs of a sentence end early: those in which a file with a name cannot
  // be opened, and those in which the shell starts processes and a call for one fails.
  lemma SentenceHalts(t: Sentence, fds: Table, a: Answers)
    requires SentenceOk(t)
    ensures Executed(PlanOf(SentenceText(t), Parsed(SentenceText(t)), a), fds).s.halted <==>
            OpensFail(t, a) ||
            (!ShellRuns(t) && exists k :: 0 <= k < |Commands(t)| && CommandFails(t, a, k))
  {
    hide Parsed, SentenceText, SegTarget, Commands, PlanOf, Executed, ShellRuns, RunsInShell;
    var c := PlanOf(SentenceText(t), Parsed(SentenceText(t)), a);
    SentenceRedirects(t, a);
    HaltsIffCallsFail(c, fds);
    forall k | 0 <= k < |Commands(t)|
      ensures CommandFails(t, a, k) <==> c.nonEmpty[k] && (!c.forkOk(k) || (!IsLast(c, k) && !c.pipeOk(k)))
    {
    }
  }

  // The children are the commands with words, in order.
  ghost predicate InOrder(t: Sentence, children: seq<Child>) {
    && (forall i, j :: 0 <= i < j < |children| ==> children[i].seg < children[j].seg)
    && (forall k: nat :: (exists j :: 0 <= j < |children| && children[j].seg == k) <==>
                         k < |Commands(t)| && Commands(t)[k] != [])
  }

  // Main result: what reads and writes what. The commands with words run as children, in
  // order; each reads the pipe of the one before it, and the first the input file or what the
  // shell reads; each writes its own pipe, and the last of the line the output file or what
  // the shell writes. The shell waits for all, or enters the last as a job.
  lemma SentenceWires(t: Sentence, fds: Table, a: Answers)
    requires SentenceOk(t) && Std(fds) && !OpensFail(t, a)
    requires ShellRuns(t) || forall k :: 0 <= k < |Commands(t)| ==> !CommandFails(t, a, k)
    ensures var o := Executed(PlanOf(SentenceText(t), Parsed(SentenceText(t)), a), fds);
            var out, inn := SegTarget(t.segs, GREATER, []), SegTarget(t.segs, LESS, []);
            var children := o.s.children;
            if ShellRuns(t) then
              && children == [] && o.waited == [] && o.job == None
              && o.inShell.Some? && (forall fd :: fd in fds ==> fd in o.inShell.value && o.inShell.value[fd] == fds[fd])
            else
              && o.inShell == None
              && InOrder(t, children)
              && (forall j :: 0 <= j < |children| ==>
                    && children[j].pid == a.pid(children[j].seg)
                    && ReadsAndWrites(fds, inn != [], out != [], j, children[j].seg + 1 == |Commands(t)|,
                                      children[j].table))
              && o.waited == (if EndsInAmpersand(SegWords(t.segs)) then [] else Pids(children))
              && o.job == if EndsInAmpersand(SegWords(t.segs)) && children != []
                          then Some(children[|children| - 1].pid) else None
  {
    hide Parsed, SentenceText, SegTarget, Commands, PlanOf, Executed, ShellRuns, RunsInShell, SegWords,
         EndsInAmpersand, Base, ReadsAndWrites, ChildrenInOrder;
    var c := PlanOf(SentenceText(t), Parsed(SentenceText(t)), a);
    SentenceHalts(t, fds, a);
    SentencePlan(t, a);
    SentenceRedirects(t, a);
    ParentWaits(c, fds);
    if ShellRuns(t) {
      RunWires(c, fds);
      BaseFacts(c, fds);
    } else {
      ChildPids(c, fds);
      RunReads(c, fds);
      CommandsInOrder(t, Executed(c, fds).s.children, c.nonEmpty);
    }
  }

  lemma CommandsInOrder(t: Sentence, children: seq<Child>, b: seq<bool>)
    requires |b| == |Commands(t)| && forall k :: 0 <= k < |b| ==> (b[k] <==> Commands(t)[k] != [])
    requires ChildrenInOrder(children, b)
    ensures InOrder(t, children)
  {
    hide Commands;
  }
}
