// The script runner (src/commands/exec/script.rs): a byte-wise line assembler and a
// recursion through `source` that only a depth counter bounds.
//
// What a line does is an oracle over an abstract shell state: running it changes the state
// and may ask for another script to be sourced, may end the shell, or both. What opening a
// script delivers is an oracle as well; any script may source any other, or itself.
module Script {
  import opened Bytes

  const DEPTH_MAX: nat := 8
  const LINE_MAX: nat := 256

  // What comes after a line's own effect: the next line, a sourced script and then the next
  // line, an executed script and then the end of the shell, or the end at once.
  datatype Step = Continues | Sources(name: bytes) | Executes(name: bytes) | Exits

  datatype World<!S> = World(
    contents: (S, bytes) -> Option<bytes>,
    run: (S, bytes) -> (S, Step))

  // The script that a line runs.
  function Runs(step: Step): Option<bytes> {
    match step
    case Sources(name) => Some(name)
    case Executes(name) => Some(name)
    case _ => None
  }

  // ----- The lines of a script -----

  function SplitLines(c: bytes): seq<bytes> {
    if c == [] then [[]]
    else
      var rest := SplitLines(c[1..]);
      if c[0] == LF then [[]] + rest
      else [[c[0]] + First(rest)] + rest[1..]
  }

  function First(lines: seq<bytes>): bytes {
    if lines == [] then [] else lines[0]
  }

  function DropCr(line: bytes): bytes {
    if line == [] then []
    else (if line[0] == CR then [] else [line[0]]) + DropCr(line[1..])
  }

  // Carriage returns are dropped before the line is cut to 255 bytes.
  function Clean(line: bytes): bytes {
    Take(DropCr(line), LINE_MAX - 1)
  }

  // Empty lines and comments are not executed.
  function Keep(line: bytes): seq<bytes> {
    if line != [] && line[0] != HASH then [line] else []
  }

  function KeepAll(lines: seq<bytes>): seq<bytes> {
    if lines == [] then [] else Keep(Clean(lines[0])) + KeepAll(lines[1..])
  }

  // The lines that are executed, in order.
  function ScriptLines(c: bytes): seq<bytes> {
    KeepAll(SplitLines(c))
  }

  // What the assembler still has to execute: buf holds the current line so far.
  function Pending(buf: bytes, rest: bytes): seq<bytes>
    decreases |rest|
  {
    if rest == [] then Keep(buf)
    else if rest[0] == LF then Keep(buf) + Pending([], rest[1..])
    else if rest[0] != CR && |buf| < LINE_MAX - 1 then Pending(buf + [rest[0]], rest[1..])
    else Pending(buf, rest[1..])
  }

  lemma SplitNonEmpty(c: bytes)
    ensures SplitLines(c) != []
  {
  }

  // The assembler's buffer is the cleaned part of the current line.
  lemma {:induction false} PendingCleans(raw: bytes, rest: bytes)
    requires LF !in raw
    ensures Pending(Clean(raw), rest) ==
            Keep(Clean(raw + First(SplitLines(rest)))) + KeepAll(SplitLines(rest)[1..])
    decreases |rest|
  {
    hide Clean, Keep, KeepAll, SplitLines;
    SplitUnfolds(rest);
    if rest == [] {
      assert raw + [] == raw;
      KeepNone();
      assert Keep(Clean(raw)) + [] == Keep(Clean(raw));
    } else {
      var b := rest[0];
      var more := SplitLines(rest[1..]);
      if b == LF {
        assert Clean([]) == [] by { CleanNone(); }
        PendingCleans([], rest[1..]);
        assert raw + [] == raw && [] + First(more) == First(more);
        KeepFirst(more);
      } else {
        PendingCleans(raw + [b], rest[1..]);
        CleanSnoc(raw, b);
        assert raw + [b] + First(more) == raw + ([b] + First(more));
      }
    }
  }

  lemma SplitUnfolds(rest: bytes)
    ensures rest == [] ==> SplitLines(rest) == [[]] && SplitLines(rest)[1..] == []
    ensures rest != [] ==>
              var more := SplitLines(rest[1..]);
              more != [] &&
              if rest[0] == LF then First(SplitLines(rest)) == [] && SplitLines(rest)[1..] == more
              else First(SplitLines(rest)) == [rest[0]] + First(more) && SplitLines(rest)[1..] == more[1..]
  {
    if rest != [] {
      SplitNonEmpty(rest[1..]);
    }
  }

  lemma KeepNone()
    ensures KeepAll([]) == []
  {
  }

  lemma CleanNone()
    ensures Clean([]) == []
  {
  }

  lemma KeepFirst(lines: seq<bytes>)
    requires lines != []
    ensures KeepAll(lines) == Keep(Clean(First(lines))) + KeepAll(lines[1..])
  {
  }

  lemma {:induction false} DropCrConcat(a: bytes, b: bytes)
    ensures DropCr(a + b) == DropCr(a) + DropCr(b)
  {
    if a == [] {
      assert a + b == b;
    } else {
      assert (a + b)[1..] == a[1..] + b;
      DropCrConcat(a[1..], b);
    }
  }

  lemma CleanSnoc(raw: bytes, b: byte)
    ensures Clean(raw + [b]) ==
            if b != CR && |Clean(raw)| < LINE_MAX - 1 then Clean(raw) + [b] else Clean(raw)
  {
    DropCrConcat(raw, [b]);
    assert [b][1..] == [];
  }

  // The byte loop executes exactly the lines of the split.
  lemma PendingIsLines(c: bytes)
    ensures Pending([], c) == ScriptLines(c)
  {
    PendingCleans([], c);
    SplitNonEmpty(c);
    assert [] + First(SplitLines(c)) == First(SplitLines(c));
  }

  // Main result: three laws that fix the lines of every file. Lines end at a line feed (10).
  lemma LinesSplit(a: bytes, b: bytes)
    ensures ScriptLines(a + [10] + b) == ScriptLines(a) + ScriptLines(b)
  {
    hide ScriptLines;
    PendingSplits([], a, b);
    PendingIsLines(a + [10] + b);
    PendingIsLines(a);
    PendingIsLines(b);
  }

  // A carriage return (13) anywhere changes nothing.
  lemma LinesWithoutCr(a: bytes, b: bytes)
    ensures ScriptLines(a + [13] + b) == ScriptLines(a + b)
  {
    hide ScriptLines;
    PendingSkipsCr([], a, b);
    PendingIsLines(a + [13] + b);
    PendingIsLines(a + b);
  }

  // One line: skipped if it is empty or begins with # (35), and cut to 255 bytes.
  lemma OneLine(line: bytes)
    requires 10 !in line && 13 !in line
    ensures ScriptLines(line) == if line == [] || line[0] == 35 then [] else [line[..Min(|line|, 255)]]
  {
    hide ScriptLines;
    PendingOneLine([], line);
    PendingIsLines(line);
    Unit(line);
  }

  lemma {:induction false} PendingSplits(buf: bytes, a: bytes, b: bytes)
    ensures Pending(buf, a + [10] + b) == Pending(buf, a) + Pending([], b)
    decreases |a|
  {
    hide Keep;
    if a == [] {
      assert a + [10] + b == [10] + b;
      DropHead([10], b);
    } else {
      assert (a + [10] + b)[1..] == a[1..] + [10] + b;
      PendingSplits(if a[0] == LF then [] else if a[0] != CR && |buf| < LINE_MAX - 1 then buf + [a[0]] else buf,
                    a[1..], b);
      Assoc(Keep(buf), Pending([], a[1..]), Pending([], b));
    }
  }

  lemma {:induction false} PendingSkipsCr(buf: bytes, a: bytes, b: bytes)
    ensures Pending(buf, a + [13] + b) == Pending(buf, a + b)
    decreases |a|
  {
    hide Keep;
    if a == [] {
      assert a + [13] + b == [13] + b && a + b == b;
      DropHead([13], b);
    } else {
      assert (a + [13] + b)[1..] == a[1..] + [13] + b && (a + b)[1..] == a[1..] + b;
      PendingSkipsCr(if a[0] == LF then [] else if a[0] != CR && |buf| < LINE_MAX - 1 then buf + [a[0]] else buf,
                     a[1..], b);
    }
  }

  lemma {:induction false} PendingOneLine(buf: bytes, line: bytes)
    requires 10 !in line && 13 !in line && |buf| <= 255
    ensures Pending(buf, line) == Keep((buf + line)[..Min(|buf + line|, 255)])
    decreases |line|
  {
    hide Keep;
    if line == [] {
      assert (buf + line)[..Min(|buf + line|, 255)] == buf;
    } else {
      assert line == [line[0]] + line[1..];
      if |buf| < 255 {
        PendingOneLine(buf + [line[0]], line[1..]);
        assert buf + [line[0]] + line[1..] == buf + line;
      } else {
        PendingOneLine(buf, line[1..]);
        assert (buf + line)[..255] == buf == (buf + line[1..])[..255];
      }
    }
  }

  // ----- Running scripts -----

  // A shell state, the lines executed on the way to it, and whether the shell has ended.
  datatype Outcome<!S> = Outcome(state: S, log: seq<bytes>, ended: bool)

  function Source<S>(w: World<S>, s: S, depth: nat, name: bytes): Outcome<S>
    decreases DEPTH_MAX - depth, 0
  {
    if depth >= DEPTH_MAX then Outcome(s, [], false)
    else
      var c := w.contents(s, name);
      if c.None? then Outcome(s, [], false) else RunLines(w, s, depth + 1, ScriptLines(c.value))
  }

  function RunLine<S>(w: World<S>, s: S, depth: nat, line: bytes): Outcome<S>
    decreases DEPTH_MAX - depth, 1
  {
    var (s1, step) := w.run(s, line);
    var inner := if Runs(step).Some? then Source(w, s1, depth, Runs(step).value) else Outcome(s1, [], false);
    Outcome(inner.state, [line] + inner.log, inner.ended || step.Exits? || step.Executes?)
  }

  // Nothing is executed after the shell has ended.
  function RunLines<S>(w: World<S>, s: S, depth: nat, lines: seq<bytes>): Outcome<S>
    decreases DEPTH_MAX - depth, 2, |lines|
  {
    if lines == [] then Outcome(s, [], false)
    else
      var first := RunLine(w, s, depth, lines[0]);
      if first.ended then first
      else
        var rest := RunLines(w, first.state, depth, lines[1..]);
        rest.(log := first.log + rest.log)
  }

  lemma {:induction false} RunLinesConcat<S>(w: World<S>, s: S, depth: nat, a: seq<bytes>, b: seq<bytes>)
    ensures var first := RunLines(w, s, depth, a);
            RunLines(w, s, depth, a + b) ==
            if first.ended then first
            else
              var rest := RunLines(w, first.state, depth, b);
              rest.(log := first.log + rest.log)
    decreases |a|
  {
    hide RunLine;
    if a == [] {
      Unit(b);
      Unit(RunLines(w, s, depth, b).log);
    } else {
      assert (a + b)[1..] == a[1..] + b;
      var head := RunLine(w, s, depth, a[0]);
      if !head.ended {
        RunLinesConcat(w, head.state, depth, a[1..], b);
        var mid := RunLines(w, head.state, depth, a[1..]);
        Assoc(head.log, mid.log, RunLines(w, mid.state, depth, b).log);
      }
    }
  }

  // ----- The code -----

  class Shell<S(!new)> {
    const w: World<S>
    var depth: nat
    var state: S
    var log: seq<bytes>

    constructor (w: World<S>, s: S)
      ensures this.w == w && depth == 0 && state == s && log == []
    {
      this.w, depth, state, log := w, 0, s, [];
    }

    // The depth never exceeds its maximum and is the same after the call, unless the shell
    // has ended.
    method DoScript(name: bytes) returns (ended: bool)
      requires depth <= DEPTH_MAX
      modifies this
      ensures depth <= DEPTH_MAX && (!ended ==> depth == old(depth))
      ensures var r := Source(w, old(state), old(depth), name);
              state == r.state && log == old(log) + r.log && ended == r.ended
      decreases DEPTH_MAX - depth, 0
    {
      if depth >= DEPTH_MAX {
        Unit(log);
        return false;
      }
      depth := depth + 1;
      ended := DoScriptInner(name);
      if ended {
        return;
      }
      depth := depth - 1;
    }

    method DoScriptInner(name: bytes) returns (ended: bool)
      requires 0 < depth <= DEPTH_MAX
      modifies this
      ensures depth <= DEPTH_MAX && (!ended ==> depth == old(depth))
      ensures var r := Source(w, old(state), old(depth) - 1, name);
              state == r.state && log == old(log) + r.log && ended == r.ended
      decreases DEPTH_MAX - depth, 2
    {
      hide RunLines, RunLine, ScriptLines;
      var file := w.contents(state, name);
      if file.None? {
        Unit(log);
        return false;
      }
      var c := file.value;
      PendingIsLines(c);
      ghost var all := After(w, depth, state, log, Pending([], c));
      var lineBuf := new byte[LINE_MAX](_ => NUL);
      var linePos := 0;
      var n := 0;
      assert c[0..] == c && lineBuf[..0] == [];
      while n < |c|
        invariant 0 <= n <= |c| && linePos < LINE_MAX == lineBuf.Length && fresh(lineBuf)
        invariant depth == old(depth)
        invariant After(w, depth, state, log, Pending(lineBuf[..linePos], c[n..])) == all
        decreases |c| - n
      {
        var b := c[n];
        PendingStep(lineBuf[..linePos], c, n);
        if b == LF {
          AfterKeep(w, depth, state, log, lineBuf[..linePos], Pending([], c[n + 1..]));
          if linePos > 0 && lineBuf[0] != HASH {
            ended := ExecuteLine(lineBuf[..linePos]);
            if ended {
              return;
            }
          }
          linePos := 0;
          assert lineBuf[..linePos] == [];
        } else if b != CR && linePos < LINE_MAX - 1 {
          ghost var before := lineBuf[..linePos];
          lineBuf[linePos] := b;
          linePos := linePos + 1;
          assert lineBuf[..linePos] == before + [b];
        }
        n := n + 1;
      }
      assert c[n..] == [];
      AfterKeep(w, depth, state, log, lineBuf[..linePos], []);
      Unit(Keep(lineBuf[..linePos]));
      ended := false;
      if linePos > 0 && lineBuf[0] != HASH {
        ended := ExecuteLine(lineBuf[..linePos]);
      }
      AfterNone(w, depth, state, log);
    }

    method ExecuteLine(line: bytes) returns (ended: bool)
      requires 0 < depth <= DEPTH_MAX
      modifies this
      ensures depth <= DEPTH_MAX && (!ended ==> depth == old(depth))
      ensures var r := RunLine(w, old(state), old(depth), line);
              state == r.state && log == old(log) + r.log && ended == r.ended
      decreases DEPTH_MAX - depth, 1
    {
      hide Source;
      var (s1, step) := w.run(state, line);
      state := s1;
      ghost var before := log;
      log := log + [line];
      ended := false;
      match step {
        case Sources(name) =>
          ended := DoScript(name);
          Assoc(before, [line], Source(w, s1, old(depth), name).log);
        case Executes(name) =>
          ended := DoScript(name);
          Assoc(before, [line], Source(w, s1, old(depth), name).log);
          ended := true;
        case Exits =>
          ended := true;
        case Continues =>
      }
    }
  }

  // The outcome once the remaining lines are executed as well.
  function After<S>(w: World<S>, depth: nat, s: S, log: seq<bytes>, lines: seq<bytes>): Outcome<S> {
    var r := RunLines(w, s, depth, lines);
    r.(log := log + r.log)
  }

  lemma PendingStep(buf: bytes, c: bytes, n: nat)
    requires n < |c|
    ensures Pending(buf, c[n..]) ==
            if c[n] == LF then Keep(buf) + Pending([], c[n + 1..])
            else if c[n] != CR && |buf| < LINE_MAX - 1 then Pending(buf + [c[n]], c[n + 1..])
            else Pending(buf, c[n + 1..])
  {
    assert c[n..][1..] == c[n + 1..];
  }

  lemma AfterKeep<S>(w: World<S>, depth: nat, s: S, log: seq<bytes>, line: bytes, lines: seq<bytes>)
    ensures After(w, depth, s, log, Keep(line) + lines) ==
            if line != [] && line[0] != HASH then
              var first := RunLine(w, s, depth, line);
              if first.ended then first.(log := log + first.log)
              else After(w, depth, first.state, log + first.log, lines)
            else After(w, depth, s, log, lines)
  {
    hide RunLine;
    if line != [] && line[0] != HASH {
      var first := RunLine(w, s, depth, line);
      DropHead([line], lines);
      assert ([line] + lines)[0] == line;
      Assoc(log, first.log, RunLines(w, first.state, depth, lines).log);
    } else {
      Unit(lines);
    }
  }

  lemma AfterNone<S>(w: World<S>, depth: nat, s: S, log: seq<bytes>)
    ensures After(w, depth, s, log, []) == Outcome(s, log, false)
  {
    Unit(log);
  }

  // ----- What the executed lines leave -----

  // The effects of lines, one after the other.
  function Effects<S>(w: World<S>, s: S, lines: seq<bytes>): S {
    if lines == [] then s else Effects(w, w.run(s, lines[0]).0, lines[1..])
  }

  lemma {:induction false} EffectsConcat<S>(w: World<S>, s: S, a: seq<bytes>, b: seq<bytes>)
    ensures Effects(w, s, a + b) == Effects(w, Effects(w, s, a), b)
  {
    if a == [] {
      Unit(b);
    } else {
      assert (a + b)[1..] == a[1..] + b;
      EffectsConcat(w, w.run(s, a[0]).0, a[1..], b);
    }
  }

  // Main result: a sourced script leaves exactly the effects of the lines executed, those of
  // the scripts it sources included, in the order in which they are executed.
  lemma {:induction false} SourceEffects<S>(w: World<S>, s: S, depth: nat, name: bytes)
    ensures Source(w, s, depth, name).state == Effects(w, s, Source(w, s, depth, name).log)
    decreases DEPTH_MAX - depth, 0
  {
    hide RunLines, ScriptLines;
    if depth < DEPTH_MAX && w.contents(s, name).Some? {
      RunLinesEffects(w, s, depth + 1, ScriptLines(w.contents(s, name).value));
    }
  }

  lemma {:induction false} RunLineEffects<S>(w: World<S>, s: S, depth: nat, line: bytes)
    ensures RunLine(w, s, depth, line).state == Effects(w, s, RunLine(w, s, depth, line).log)
    decreases DEPTH_MAX - depth, 1
  {
    hide Source;
    var (s1, step) := w.run(s, line);
    if Runs(step).Some? {
      SourceEffects(w, s1, depth, Runs(step).value);
      DropHead([line], Source(w, s1, depth, Runs(step).value).log);
    } else {
      DropHead([line], []);
    }
  }

  lemma {:induction false} RunLinesEffects<S>(w: World<S>, s: S, depth: nat, lines: seq<bytes>)
    ensures RunLines(w, s, depth, lines).state == Effects(w, s, RunLines(w, s, depth, lines).log)
    decreases DEPTH_MAX - depth, 2, |lines|
  {
    hide RunLine;
    if lines != [] {
      var first := RunLine(w, s, depth, lines[0]);
      RunLineEffects(w, s, depth, lines[0]);
      if !first.ended {
        RunLinesEffects(w, first.state, depth, lines[1..]);
        EffectsConcat(w, s, first.log, RunLines(w, first.state, depth, lines[1..]).log);
      }
    }
  }

  // ----- The same runs, one line at a time -----

  // A machine without recursion: a stack of the lines that each open script has left. At most
  // 8 scripts are open; an executed script is the last thing that runs, so what was below it
  // is dropped.
  function StepLines<S>(w: World<S>, s: S, step: Step, rest: seq<bytes>, below: seq<seq<bytes>>): seq<seq<bytes>> {
    match step
    case Continues => [rest] + below
    case Exits => []
    case Sources(name) => Opened(w, s, name, |below| + 1) + ([rest] + below)
    case Executes(name) => Opened(w, s, name, |below| + 1) + Dropped(|below| + 1)
  }

  function Opened<S>(w: World<S>, s: S, name: bytes, open: nat): seq<seq<bytes>> {
    if open >= 8 || w.contents(s, name).None? then [] else [ScriptLines(w.contents(s, name).value)]
  }

  // The scripts below stay open, but have nothing left to run.
  function Dropped(n: nat): seq<seq<bytes>> {
    if n == 0 then [] else [[]] + Dropped(n - 1)
  }

  // The state and the lines executed after at most that many moves, and what is left to run.
  function Machine<S>(w: World<S>, s: S, stack: seq<seq<bytes>>, moves: nat): (S, seq<bytes>, seq<seq<bytes>>)
    decreases moves
  {
    if moves == 0 || stack == [] then (s, [], stack)
    else if stack[0] == [] then Machine(w, s, stack[1..], moves - 1)
    else
      var line := stack[0][0];
      var (s1, step) := w.run(s, line);
      var r := Machine(w, s1, StepLines(w, s1, step, stack[0][1..], stack[1..]), moves - 1);
      (r.0, [line] + r.1, r.2)
  }

  function Prefixed<S>(log: seq<bytes>, r: (S, seq<bytes>, seq<seq<bytes>>)): (S, seq<bytes>, seq<seq<bytes>>) {
    (r.0, log + r.1, r.2)
  }

  lemma MachineMove<S>(w: World<S>, s: S, lines: seq<bytes>, below: seq<seq<bytes>>, moves: nat)
    ensures Machine(w, s, [lines] + below, moves + 1) ==
            if lines == [] then Machine(w, s, below, moves)
            else
              var (s1, step) := w.run(s, lines[0]);
              Prefixed([lines[0]], Machine(w, s1, StepLines(w, s1, step, lines[1..], below), moves))
    ensures Machine(w, s, [], moves) == (s, [], [])
  {
    DropHead([lines], below);
  }

  lemma PrefixedTwice<S>(a: seq<bytes>, b: seq<bytes>, r: (S, seq<bytes>, seq<seq<bytes>>))
    ensures Prefixed(a, Prefixed(b, r)) == Prefixed(a + b, r) && Prefixed([], r) == r
  {
    Assoc(a, b, r.1);
    Unit(r.1);
  }

  lemma {:induction false} DroppedDrains<S>(w: World<S>, s: S, n: nat, m: nat)
    ensures |Dropped(n)| == n && Machine(w, s, Dropped(n), n + m) == (s, [], [])
  {
    hide Machine;
    MachineMove(w, s, [], Dropped(if n == 0 then 0 else n - 1), if n == 0 then m else n - 1 + m);
    if n > 0 {
      DroppedDrains(w, s, n - 1, m);
    }
  }

  // What the machine gets to from the lines of one script, m moves before the end.
  ghost predicate Reaches<S>(w: World<S>, s: S, lines: seq<bytes>, below: seq<seq<bytes>>, n: nat, m: nat) {
    var r := RunLines(w, s, |below| + 1, lines);
    Machine(w, s, [lines] + below, n + m) ==
    if r.ended then (r.state, r.log, []) else Prefixed(r.log, Machine(w, r.state, below, m))
  }

  lemma NothingReaches<S>(w: World<S>, s: S, below: seq<seq<bytes>>, m: nat)
    requires |below| < 8
    ensures Reaches(w, s, [], below, 1, m)
  {
    hide Machine, RunLines, Prefixed;
    RunLinesStep(w, s, |below| + 1, []);
    MachineMove(w, s, [], below, m);
    PrefixedTwice([], [], Machine(w, s, below, m));
  }

  lemma ExitReaches<S>(w: World<S>, s: S, lines: seq<bytes>, below: seq<seq<bytes>>, m: nat)
    requires |below| < 8 && lines != [] && w.run(s, lines[0]).1.Exits?
    ensures Reaches(w, s, lines, below, 1, m)
  {
    hide Machine, RunLines;
    RunLinesStep(w, s, |below| + 1, lines);
    MachineMove(w, s, lines, below, m);
    MachineMove(w, w.run(s, lines[0]).0, [], below, m);
  }

  // A line that opens no script.
  lemma LineReaches<S>(w: World<S>, s: S, lines: seq<bytes>, below: seq<seq<bytes>>, n: nat, m: nat)
    requires |below| < 8 && lines != []
    requires var (s1, step) := w.run(s, lines[0]);
             && (step.Continues? || (step.Sources? && Opened(w, s1, step.name, |below| + 1) == []))
             && Reaches(w, s1, lines[1..], below, n, m)
    ensures Reaches(w, s, lines, below, n + 1, m)
  {
    hide Machine, RunLines, ScriptLines, Prefixed;
    var (s1, step) := w.run(s, lines[0]);
    var line := [lines[0]];
    RunLinesStep(w, s, |below| + 1, lines);
    MachineMove(w, s, lines, below, n + m);
    assert [] + ([lines[1..]] + below) == [lines[1..]] + below;
    var r := RunLines(w, s1, |below| + 1, lines[1..]);
    Unit(line);
    PrefixedTwice(line, r.log, Machine(w, r.state, below, m));
    assert Prefixed(line, (r.state, r.log, [])) == (r.state, line + r.log, []) by { PrefixedIs(line, r.state, r.log); }
  }

  lemma PrefixedIs<S>(a: seq<bytes>, s: S, b: seq<bytes>)
    ensures Prefixed(a, (s, b, [])) == (s, a + b, [])
  {
  }

  // A line that sources a script that can be opened.
  lemma SourceReaches<S>(w: World<S>, s: S, lines: seq<bytes>, below: seq<seq<bytes>>, ls: seq<bytes>,
                         n1: nat, n2: nat, m: nat)
    requires |below| < 7 && lines != []
    requires var (s1, step) := w.run(s, lines[0]);
             && step.Sources? && Opened(w, s1, step.name, |below| + 1) == [ls]
             && Reaches(w, s1, ls, [lines[1..]] + below, n1, n2 + m)
             && (RunLines(w, s1, |below| + 2, ls).ended ||
                 Reaches(w, RunLines(w, s1, |below| + 2, ls).state, lines[1..], below, n2, m))
    ensures Reaches(w, s, lines, below, n1 + n2 + 1, m)
  {
    hide Machine, RunLines, ScriptLines, Prefixed;
    var (s1, step) := w.run(s, lines[0]);
    var line := [lines[0]];
    RunLinesStep(w, s, |below| + 1, lines);
    MachineMove(w, s, lines, below, n1 + (n2 + m));
    var inner := RunLines(w, s1, |below| + 2, ls);
    assert Source(w, s1, |below| + 1, step.name) == inner;
    PrefixedIs(line, inner.state, inner.log);
    if !inner.ended {
      var r := RunLines(w, inner.state, |below| + 1, lines[1..]);
      PrefixedIs(inner.log, r.state, r.log);
      PrefixedIs(line, r.state, inner.log + r.log);
      PrefixedTwice(inner.log, r.log, Machine(w, r.state, below, m));
      PrefixedTwice(line, inner.log + r.log, Machine(w, r.state, below, m));
      Assoc(line, inner.log, r.log);
    }
  }

  // A line that executes a script, the last thing to run.
  lemma ExecuteNothing<S>(w: World<S>, s: S, lines: seq<bytes>, below: seq<seq<bytes>>, n: nat, m: nat)
    requires |below| < 8 && lines != [] && w.run(s, lines[0]).1.Executes?
    requires var (s1, step) := w.run(s, lines[0]); Opened(w, s1, step.name, |below| + 1) == []
    ensures Reaches(w, s, lines, below, n + (|below| + 1) + 1, m)
  {
    hide Machine, RunLines, ScriptLines, Prefixed, Dropped;
    var (s1, step) := w.run(s, lines[0]);
    var k := |below| + 1;
    RunLinesStep(w, s, k, lines);
    MachineMove(w, s, lines, below, n + k + m);
    DroppedDrains(w, s1, k, n + m);
    Unit(Dropped(k));
    PrefixedIs([lines[0]], s1, []);
    Unit([lines[0]]);
  }

  lemma ExecuteReaches<S>(w: World<S>, s: S, lines: seq<bytes>, below: seq<seq<bytes>>, ls: seq<bytes>,
                          n: nat, m: nat)
    requires |below| < 7 && lines != [] && w.run(s, lines[0]).1.Executes?
    requires |Dropped(|below| + 1)| == |below| + 1
    requires var (s1, step) := w.run(s, lines[0]);
             && Opened(w, s1, step.name, |below| + 1) == [ls]
             && Reaches(w, s1, ls, Dropped(|below| + 1), n, |below| + 1 + m)
    ensures Reaches(w, s, lines, below, n + (|below| + 1) + 1, m)
  {
    hide Machine, RunLines, ScriptLines, Prefixed, Dropped;
    var (s1, step) := w.run(s, lines[0]);
    var k := |below| + 1;
    RunLinesStep(w, s, k, lines);
    MachineMove(w, s, lines, below, n + (k + m));
    var inner := RunLines(w, s1, k + 1, ls);
    assert Source(w, s1, k, step.name) == inner;
    DroppedDrains(w, inner.state, k, m);
    PrefixedIs(inner.log, inner.state, []);
    Unit(inner.log);
    PrefixedIs([lines[0]], inner.state, inner.log);
  }

  lemma {:induction false} MachineRuns<S>(w: World<S>, s: S, lines: seq<bytes>, below: seq<seq<bytes>>, m: nat)
    returns (n: nat)
    requires |below| < 8
    ensures Reaches(w, s, lines, below, n, m)
    decreases 8 - |below|, |lines|
  {
    hide Reaches, RunLines, ScriptLines;
    if lines == [] {
      n := 1;
      NothingReaches(w, s, below, m);
    } else {
      var (s1, step) := w.run(s, lines[0]);
      var rest := lines[1..];
      if step.Exits? {
        n := 1;
        ExitReaches(w, s, lines, below, m);
      } else if step.Continues? || (step.Sources? && Opened(w, s1, step.name, |below| + 1) == []) {
        n := MachineRuns(w, s1, rest, below, m);
        LineReaches(w, s, lines, below, n, m);
        n := n + 1;
      } else if step.Sources? {
        var ls := Opened(w, s1, step.name, |below| + 1)[0];
        var n2 := 0;
        if !RunLines(w, s1, |below| + 2, ls).ended {
          n2 := MachineRuns(w, RunLines(w, s1, |below| + 2, ls).state, rest, below, m);
        }
        var n1 := MachineRuns(w, s1, ls, [rest] + below, n2 + m);
        SourceReaches(w, s, lines, below, ls, n1, n2, m);
        n := n1 + n2 + 1;
      } else {
        var script := Opened(w, s1, step.name, |below| + 1);
        DroppedDrains(w, s1, |below| + 1, m);
        var n1 := 0;
        if script == [] {
          ExecuteNothing(w, s, lines, below, n1, m);
        } else {
          n1 := MachineRuns(w, s1, script[0], Dropped(|below| + 1), |below| + 1 + m);
          assert script == [script[0]];
          ExecuteReaches(w, s, lines, below, script[0], n1, m);
        }
        n := n1 + (|below| + 1) + 1;
      }
    }
  }

  // Main result: the recursion through sourced scripts, with its depth counter, does what the
  // machine does: the same lines, in the same order, to the same state.
  lemma SourceIsMachine<S>(w: World<S>, s: S, name: bytes, m: nat) returns (n: nat)
    ensures var r := Source(w, s, 0, name);
            Machine(w, s, Opened(w, s, name, 0), n + m) == (r.state, r.log, [])
  {
    hide RunLines, ScriptLines;
    n := 0;
    if w.contents(s, name).Some? {
      var ls := ScriptLines(w.contents(s, name).value);
      n := MachineRuns(w, s, ls, [], m);
      hide Machine;
      var r := RunLines(w, s, 1, ls);
      assert [ls] + [] == [ls];
      MachineMove(w, r.state, [], [], m);
      PrefixedIs(r.log, r.state, []);
      Unit(r.log);
    }
  }

  // How a script's run starts.
  lemma RunLinesStep<S>(w: World<S>, s: S, depth: nat, lines: seq<bytes>)
    ensures if lines == [] then RunLines(w, s, depth, lines) == Outcome(s, [], false)
            else
              var (s1, step) := w.run(s, lines[0]);
              var inner := if Runs(step).Some? then Source(w, s1, depth, Runs(step).value) else Outcome(s1, [], false);
              var ended := inner.ended || step.Exits? || step.Executes?;
              RunLines(w, s, depth, lines) ==
              if ended then Outcome(inner.state, [lines[0]] + inner.log, true)
              else
                var more := RunLines(w, inner.state, depth, lines[1..]);
                more.(log := [lines[0]] + inner.log + more.log)
  {
  }

  // ----- How many lines are executed -----

  // L + L^2 + ... + L^k.
  function Pow(b: nat, e: nat): nat {
    if e == 0 then 1 else b * Pow(b, e - 1)
  }

  function PowSum(b: nat, k: nat): nat {
    if k == 0 then 0 else PowSum(b, k - 1) + Pow(b, k)
  }

  lemma PowSumZero(b: nat)
    ensures PowSum(b, 0) == 0
  {
  }

  lemma {:induction false} PowSumStep(b: nat, k: nat)
    ensures PowSum(b, k + 1) == b * (1 + PowSum(b, k))
  {
    if k == 0 {
      assert Pow(b, 1) == b * Pow(b, 0);
    } else {
      PowSumStep(b, k - 1);
      assert Pow(b, k + 1) == b * Pow(b, k);
    }
  }

  // No script has more than the given number of lines.
  ghost predicate AtMost<S(!new)>(w: World<S>, lines: nat) {
    forall s, name :: w.contents(s, name).Some? ==> |ScriptLines(w.contents(s, name).value)| <= lines
  }

  // Every script has exactly that many lines, and each of them sources some script.
  ghost predicate Exactly<S(!new)>(w: World<S>, lines: nat) {
    forall s, name ::
      && w.contents(s, name).Some?
      && |ScriptLines(w.contents(s, name).value)| == lines
      && AllSource(w, ScriptLines(w.contents(s, name).value))
  }

  ghost predicate AllSource<S(!new)>(w: World<S>, ls: seq<bytes>) {
    forall k, s :: 0 <= k < |ls| ==> w.run(s, ls[k]).1.Sources?
  }

  lemma Times(a: nat, b: nat, c: nat)
    requires a <= b
    ensures a * c <= b * c
  {
  }

  lemma OneMore(n: nat, each: nat)
    requires n > 0
    ensures n * each == each + (n - 1) * each
  {
  }

  // The lines executed are the first line, what it sources, and the rest.
  lemma RunLinesUnfold<S>(w: World<S>, s: S, depth: nat, ls: seq<bytes>)
    ensures if ls == [] then RunLines(w, s, depth, ls).log == []
            else
              var (s1, step) := w.run(s, ls[0]);
              var first := RunLine(w, s, depth, ls[0]);
              |RunLines(w, s, depth, ls).log| ==
              1 + (if Runs(step).Some? then |Source(w, s1, depth, Runs(step).value).log| else 0) +
              (if first.ended then 0 else |RunLines(w, first.state, depth, ls[1..]).log|)
    ensures ls == [] ==> !RunLines(w, s, depth, ls).ended
    ensures ls != [] ==>
              var first := RunLine(w, s, depth, ls[0]);
              RunLines(w, s, depth, ls).ended == (first.ended || RunLines(w, first.state, depth, ls[1..]).ended)
  {
  }

  // Main result: with at most L lines in each file, sourcing from depth d executes at most
  // L + L^2 + ... + L^(8 - d) lines, however the files source each other and themselves.
  lemma {:induction false} SourceBound<S(!new)>(w: World<S>, s: S, depth: nat, name: bytes, lines: nat)
    requires AtMost(w, lines) && depth <= DEPTH_MAX
    ensures |Source(w, s, depth, name).log| <= PowSum(lines, DEPTH_MAX - depth)
    decreases DEPTH_MAX - depth, 0
  {
    hide PowSum, ScriptLines, RunLines;
    if depth < DEPTH_MAX && w.contents(s, name).Some? {
      var ls := ScriptLines(w.contents(s, name).value);
      RunLinesBound(w, s, depth + 1, ls, lines);
      PowSumStep(lines, DEPTH_MAX - depth - 1);
      Times(|ls|, lines, 1 + PowSum(lines, DEPTH_MAX - depth - 1));
    }
  }

  lemma {:induction false} RunLinesBound<S(!new)>(w: World<S>, s: S, depth: nat, ls: seq<bytes>, lines: nat)
    requires AtMost(w, lines) && depth <= DEPTH_MAX
    ensures |RunLines(w, s, depth, ls).log| <= |ls| * (1 + PowSum(lines, DEPTH_MAX - depth))
    decreases DEPTH_MAX - depth, 2, |ls|
  {
    hide PowSum, Source, RunLines, AtMost;
    RunLinesUnfold(w, s, depth, ls);
    if ls != [] {
      var (s1, step) := w.run(s, ls[0]);
      if Runs(step).Some? {
        SourceBound(w, s1, depth, Runs(step).value, lines);
      }
      RunLinesBound(w, RunLine(w, s, depth, ls[0]).state, depth, ls[1..], lines);
      OneMore(|ls|, 1 + PowSum(lines, DEPTH_MAX - depth));
    }
  }

  // The bound is reached, for example by a file that sources itself on every line.
  lemma {:induction false} SourceReachesBound<S(!new)>(w: World<S>, s: S, depth: nat, name: bytes, lines: nat)
    requires Exactly(w, lines) && depth <= DEPTH_MAX
    ensures |Source(w, s, depth, name).log| == PowSum(lines, DEPTH_MAX - depth)
    ensures !Source(w, s, depth, name).ended
    decreases DEPTH_MAX - depth, 0
  {
    hide PowSum, ScriptLines, RunLines;
    PowSumZero(lines);
    if depth < DEPTH_MAX {
      assert w.contents(s, name).Some?;
      RunLinesReachBound(w, s, depth + 1, ScriptLines(w.contents(s, name).value), lines);
      PowSumStep(lines, DEPTH_MAX - depth - 1);
    }
  }

  lemma {:induction false} RunLinesReachBound<S(!new)>(w: World<S>, s: S, depth: nat, ls: seq<bytes>, lines: nat)
    requires Exactly(w, lines) && AllSource(w, ls) && depth <= DEPTH_MAX
    ensures |RunLines(w, s, depth, ls).log| == |ls| * (1 + PowSum(lines, DEPTH_MAX - depth))
    ensures !RunLines(w, s, depth, ls).ended
    decreases DEPTH_MAX - depth, 2, |ls|
  {
    hide PowSum, Source, RunLines, Exactly;
    RunLinesUnfold(w, s, depth, ls);
    if ls != [] {
      var (s1, step) := w.run(s, ls[0]);
      SourceReachesBound(w, s1, depth, step.name, lines);
      assert forall k :: 0 <= k < |ls| - 1 ==> ls[1..][k] == ls[k + 1];
      RunLinesReachBound(w, RunLine(w, s, depth, ls[0]).state, depth, ls[1..], lines);
      OneMore(|ls|, 1 + PowSum(lines, DEPTH_MAX - depth));
    }
  }
}
