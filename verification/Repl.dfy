// The raw-mode loop (src/repl/raw.rs) from the prompt to the command: a line is read, stored
// in the history, and only then evaluated.
module Repl {
  import opened Bytes
  import opened Buffer
  import Io
  import opened Eval
  import opened Raw
  import Dirs
  import Env
  import History
  import Keys
  import Terminal

  // ----- What a submitted line does -----

  // The command that a line runs, and the history behind it. A line with operators goes to the
  // pipeline as it is; any other line is evaluated, which stores what it expands to.
  function Entered(log: seq<bytes>, t: Env.Table, line: bytes, ls: Dirs.Listing): (Command, seq<bytes>) {
    var pushed := History.Pushed(log, line);
    if line == [] then (Nothing, log)
    else if HasOp(line) then (PipedCommand(line), pushed)
    else (EvalCommand(pushed, t, line, ls), EvalLog(pushed, t, line))
  }

  // ----- The loop body -----

  // Reads one line and runs it; a read that fails ends the shell.
  method ReadAndRun(hist: History.Ring, env: Env.EnvTable, ls: Dirs.Listing, rxs: seq<bytes>, fails: bool)
    returns (status: Status, c: Command)
    requires hist.Valid() && env.Valid() && hist.count + 2 < Io.U64_LIMIT
    requires forall k :: 0 <= k < |rxs| ==> |rxs[k]| <= 16
    requires hist.slots != env.keys && hist.slots != env.vals
    requires hist.lens != env.keyLens && hist.lens != env.valLens
    modifies hist, hist.slots, hist.lens
    ensures hist.Valid() && EditorOk(Context(old(hist.log), ls), FRESH)
    ensures var r := Session(Context(old(hist.log), ls), FRESH, rxs);
            && status == (if fails && r.status == Editing then Exited else r.status)
            && (c, hist.log) ==
               if status == Submitted then Entered(old(hist.log), env.table, Text(r.e.z), ls)
               else (Nothing, old(hist.log))
  {
    hide Session, EvalCommand, EvalLog, PipedCommand, HasOp, History.Pushed;
    ghost var log := hist.log;
    var ed := new LineEditor(hist, ls);
    status := ed.EditLine(rxs, fails);
    c := Nothing;
    if status != Submitted {
      return;
    }
    ghost var z := ed.State().z;
    var line := ed.line[..ed.lineLen];
    assert line == Text(z);
    ed.Submit();
    if line == [] {
      return;
    }
    PushedCount(log, line);
    c := RunStored(hist, env, line, ls);
  }

  // What is left to do once the line is in the history.
  method RunStored(hist: History.Ring, env: Env.EnvTable, line: bytes, ls: Dirs.Listing) returns (c: Command)
    requires hist.Valid() && env.Valid() && hist.count + 1 < Io.U64_LIMIT
    modifies hist`count, hist`log, hist.slots, hist.lens
    ensures hist.Valid()
    ensures (c, hist.log) ==
            if HasOp(line) then (PipedCommand(line), old(hist.log))
            else (EvalCommand(old(hist.log), old(env.table), line, ls), EvalLog(old(hist.log), old(env.table), line))
  {
    hide EvalCommand, EvalLog, PipedCommand, HasOp;
    if HasOp(line) {
      c := RunPiped(line);
    } else {
      c := EvalLine(hist, env, line, ls);
    }
  }

  lemma PushedCount(log: seq<bytes>, line: bytes)
    ensures |History.Pushed(log, line)| <= |log| + 1
  {
  }

  // ----- Ctrl-C -----

  // At any point of a line Ctrl-C ends it just as Enter does.
  lemma InterruptSubmits(c: Context, ks: seq<Key>)
    requires EditorOk(c, FRESH) && Keys.RunKeys(c, FRESH, ks).status == Editing
    ensures var r := Keys.RunKeys(c, FRESH, ks);
            && Keys.RunKeys(c, FRESH, ks + [Interrupt]).e == r.e == Keys.RunKeys(c, FRESH, ks + [Enter]).e
            && Keys.RunKeys(c, FRESH, ks + [Interrupt]).status == Submitted
            && Keys.RunKeys(c, FRESH, ks + [Enter]).status == Submitted
  {
    hide Keys.RunKeys, Emit;
    var e := Keys.RunKeys(c, FRESH, ks).e;
    Keys.RunKeysConcat(c, FRESH, ks, [Interrupt]);
    Keys.RunKeysConcat(c, FRESH, ks, [Enter]);
    Keys.OneKey(c, e, Interrupt);
    Keys.OneKey(c, e, Enter);
  }

  predicate AllBlank(s: bytes) {
    forall k :: 0 <= k < |s| ==> IsBlank(s[k])
  }

  lemma SimpleNothing(s: bytes, ls: Dirs.Listing)
    ensures Simple(s, ls) == Nothing <==> AllBlank(s)
  {
    var start := Io.SkipBlanks(s, 0);
    Io.RunsStep(s, 0, 16);
    hide Io.Runs, ArgsOf;
    if start < |s| {
      assert !IsBlank(s[start]);
    }
  }

  // Is this text, once trimmed, empty or the last entry?
  predicate IsStored(log: seq<bytes>, text: bytes) {
    var trimmed := History.Trim(text);
    trimmed == [] || (log != [] && log[|log| - 1] == trimmed)
  }

  // Does evaluating the line run nothing and store nothing?
  predicate EvaluatesToNothing(log: seq<bytes>, t: Env.Table, line: bytes) {
    var s := Take(History.Expand(log, line), CAPACITY);
    s == [] || (!HasOp(s) && AllBlank(Substituted(t, s)) && IsStored(log, Substituted(t, s)))
  }

  // What a submitted line leaves undone: it runs nothing and leaves the history as it is
  // exactly when it is empty, or it is blank or the last entry already, holds no operator and
  // evaluates to nothing.
  lemma SubmitsNothing(log: seq<bytes>, t: Env.Table, line: bytes, ls: Dirs.Listing)
    requires History.EntriesFit(log)
    ensures Entered(log, t, line, ls) == (Nothing, log) <==>
            line == [] || (IsStored(log, line) && !HasOp(line) && EvaluatesToNothing(log, t, line))
  {
    hide Substituted, History.Expand, History.Trim, History.Pushed, HasOp, Simple, PipedCommand, AllBlank, EvalLog;
    var pushed := History.Pushed(log, line);
    PushedSame(log, line);
    EvalStores(pushed, t, line);
    var s := Take(History.Expand(pushed, line), CAPACITY);
    SimpleNothing(Substituted(t, s), ls);
    PipedIsSomething(line);
    PipedIsSomething(s);
    EvalGrows(pushed, t, line);
    PushGrows(log, line);
  }

  lemma PipedIsSomething(s: bytes)
    ensures PipedCommand(s) != Nothing
  {
  }

  lemma PushGrows(log: seq<bytes>, line: bytes)
    ensures History.Pushed(log, line) == log || |History.Pushed(log, line)| > |log|
  {
    hide History.Trim;
  }

  lemma EvalGrows(log: seq<bytes>, t: Env.Table, line: bytes)
    ensures EvalLog(log, t, line) == log || |EvalLog(log, t, line)| > |log|
  {
    hide History.Pushed, History.Expand, Substituted;
    var s := Take(History.Expand(log, line), CAPACITY);
    PushGrows(log, Take(s, LINE_CUT));
    PushGrows(log, Substituted(t, s));
  }

  // Whatever becomes of a line with something in it, it is in the history: the last entry, if it
  // is a pipeline, and otherwise possibly followed by what it was evaluated as.
  lemma EnteredIsStored(log: seq<bytes>, t: Env.Table, line: bytes, ls: Dirs.Listing)
    requires History.EntriesFit(log) && History.Trim(line) != []
    ensures var own, after := Take(History.Trim(line), 127), Entered(log, t, line, ls).1;
            && after != [] && own in after
            && (HasOp(line) ==> after[|after| - 1] == own)
            && (after == History.Pushed(log, line) || after[..|after| - 1] == History.Pushed(log, line))
  {
    hide Substituted, History.Expand, History.Trim, HasOp, EvalCommand, PipedCommand;
    assert line != [] by { TrimNothing(); }
    History.PushedLast(log, line);
    var pushed := History.Pushed(log, line);
    hide History.Pushed;
    EvalAppends(pushed, t, line);
    var after := Entered(log, t, line, ls).1;
    if after != pushed {
      assert after[|pushed| - 1] == pushed[|pushed| - 1];
    }
  }

  lemma EvalAppends(log: seq<bytes>, t: Env.Table, line: bytes)
    ensures var after := EvalLog(log, t, line); after == log || (after != [] && after[..|after| - 1] == log)
  {
    hide History.Expand, Substituted, History.Trim;
  }

  // So an interrupted line is discarded, with no command and no trace in the history, exactly
  // under that condition.
  lemma InterruptDiscards(c: Context, ks: seq<Key>, t: Env.Table)
    requires EditorOk(c, FRESH) && Keys.RunKeys(c, FRESH, ks).status == Editing && History.EntriesFit(c.log)
    ensures var r := Keys.RunKeys(c, FRESH, ks + [Interrupt]);
            var line := Text(Keys.RunKeys(c, FRESH, ks).e.z);
            && r.status == Submitted && Text(r.e.z) == line
            && (Entered(c.log, t, line, c.ls) == (Nothing, c.log) <==>
                line == [] || (IsStored(c.log, line) && !HasOp(line) && EvaluatesToNothing(c.log, t, line)))
  {
    hide Keys.RunKeys, Entered, EvaluatesToNothing, IsStored, HasOp;
    InterruptSubmits(c, ks);
    SubmitsNothing(c.log, t, Text(Keys.RunKeys(c, FRESH, ks).e.z), c.ls);
  }

  // For instance a word typed and interrupted is run as a command, and stored.
  lemma InterruptedWordRuns(c: Context, w: bytes, t: Env.Table)
    requires EditorOk(c, FRESH) && IsPlainWord(w) && Terminal.AllPrintable(w)
    ensures var r := Session(c, FRESH, [w, [CTRL_C]]);
            && r.status == Submitted && Text(r.e.z) == w
            && Entered(c.log, t, w, c.ls).0 == Args([w])
  {
    hide Process, Session, EvalCommand;
    TypingInserts(c, FRESH, w);
    assert Take(w, LINE_MAX - 1) == w;
    Unit(w);
    InterruptReads(c, Process(c, FRESH, w).e);
    SessionTwo(c, FRESH, w, [CTRL_C]);
    WordRuns(History.Pushed(c.log, w), t, w, c.ls);
  }

  lemma InterruptReads(c: Context, e: Editor)
    requires EditorOk(c, e)
    ensures Process(c, e, [CTRL_C]).status == Submitted && Process(c, e, [CTRL_C]).e == e
  {
    hide Emit;
    assert Decode([CTRL_C]) == (Interrupt, 1);
  }

  lemma WordRuns(log: seq<bytes>, t: Env.Table, w: bytes, ls: Dirs.Listing)
    requires IsPlainWord(w)
    ensures EvalCommand(log, t, w, ls) == Args([w]) && !HasOp(w)
  {
    hide EvalCommand, ScriptCommand, Io.Runs;
    var s := Io.Slice(0, |w|);
    assert Io.MaximalRun(w, s);
    assert Io.Covers(w, |w|, [], 15);
    assert [s][1..] == [];
    assert Io.Covers(w, 0, [s], 16);
    Io.CoverUnique(w, 0, [s], 16);
    assert Io.Text(w, s) == w;
    assert Io.Texts(w, [s]) == [w];
    PlainLine(log, t, w, ls);
  }

  // ----- References in typed lines -----

  // The text that a typed line is evaluated as, and what its references stood for before it
  // was stored. Lines with operators are not expanded; of an expansion 256 bytes are kept.
  function Evaluated(log: seq<bytes>, line: bytes): bytes {
    if HasOp(line) then line else Take(History.Expand(History.Pushed(log, line), line), CAPACITY)
  }

  function Meant(log: seq<bytes>, line: bytes): bytes {
    if HasOp(line) then line else Take(History.Expand(log, line), CAPACITY)
  }

  // The command is the one that this text makes.
  lemma SubmittedRuns(log: seq<bytes>, t: Env.Table, line: bytes, ls: Dirs.Listing)
    ensures var s := Evaluated(log, line);
            Entered(log, t, line, ls).0 ==
            if s == [] then Nothing else if HasOp(s) then PipedCommand(s) else Simple(Substituted(t, s), ls)
  {
    hide History.Pushed, History.Expand, Simple, Substituted, PipedCommand, EvalLog;
    if line == [] {
      History.ExpandEmpty(History.Pushed(log, line));
    }
  }

  // Do two replacements of a reference give the same line, as far as it is kept?
  predicate SameKept(pre: bytes, x: bytes, y: bytes, rest: bytes) {
    Take(pre + (x + rest), CAPACITY) == Take(pre + (y + rest), CAPACITY)
  }

  // They do if they are equal, and only then if both lines fit.
  lemma SameKeptFits(pre: bytes, x: bytes, y: bytes, rest: bytes)
    ensures x == y ==> SameKept(pre, x, y, rest)
    ensures |pre| + |x| + |rest| <= CAPACITY && |pre| + |y| + |rest| <= CAPACITY ==>
              (SameKept(pre, x, y, rest) <==> x == y)
  {
    if |pre| + |x| + |rest| <= CAPACITY && |pre| + |y| + |rest| <= CAPACITY {
      assert Take(pre + (x + rest), CAPACITY) == pre + (x + rest);
      assert Take(pre + (y + rest), CAPACITY) == pre + (y + rest);
      History.SameMiddle(pre, x, y, rest);
    }
  }

  // Exactly when a typed "!!" is evaluated as what it stood for.
  lemma TypedBangBang(log: seq<bytes>, pre: bytes, rest: bytes)
    requires History.EntriesFit(log) && BANG !in pre && BANG !in rest
    ensures var line := History.Line(pre, [BANG, BANG], rest);
            var own := Take(History.Trim(line), History.HISTORY_LINE_MAX - 1);
            var was := if log == [] then [BANG, BANG] else log[|log| - 1];
            Evaluated(log, line) == Meant(log, line) <==> HasOp(line) || SameKept(pre, own, was, rest)
  {
    hide History.Expand, History.Trim, History.Line, HasOp;
    History.SubmittedBangBang(log, pre, rest);
    History.BangBangExpands(log, pre, rest);
  }

  // The same for "!-k" and "!n".
  lemma TypedBack(log: seq<bytes>, k: nat, pre: bytes, rest: bytes)
    requires History.EntriesFit(log) && 0 < k < Io.U64_LIMIT
    requires BANG !in pre && BANG !in rest && History.NoDigit(rest)
    ensures var line := History.Line(pre, [BANG, MINUS] + Io.Decimal(k), rest);
            var now := History.Pushed(log, line);
            Evaluated(log, line) == Meant(log, line) <==>
            HasOp(line) || SameKept(pre, History.Back(now, k), History.Back(log, k), rest)
  {
    hide History.Expand, History.Trim, History.Line, History.Back, History.Pushed, HasOp, Io.Decimal;
    var line := History.Line(pre, [BANG, MINUS] + Io.Decimal(k), rest);
    History.BackExpands(log, k, pre, rest);
    History.BackExpands(History.Pushed(log, line), k, pre, rest);
  }

  lemma TypedFront(log: seq<bytes>, n: nat, pre: bytes, rest: bytes)
    requires History.EntriesFit(log) && |log| + 1 + n < Io.U64_LIMIT
    requires BANG !in pre && BANG !in rest && History.NoDigit(rest)
    ensures var line := History.Line(pre, [BANG] + Io.Decimal(n), rest);
            var now := History.Pushed(log, line);
            Evaluated(log, line) == Meant(log, line) <==>
            HasOp(line) || SameKept(pre, History.Front(now, n), History.Front(log, n), rest)
  {
    hide History.Expand, History.Trim, History.Line, History.Front, History.Pushed, HasOp, Io.Decimal;
    var line := History.Line(pre, [BANG] + Io.Decimal(n), rest);
    PushedCount(log, line);
    History.FrontExpands(log, n, pre, rest);
    History.FrontExpands(History.Pushed(log, line), n, pre, rest);
  }
}
