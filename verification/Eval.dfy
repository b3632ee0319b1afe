// From a line to a command: the interactive evaluator (src/eval.rs, the end of the loop in
// src/repl/raw.rs) and the script line (src/commands/exec/script.rs).
module Eval {
  import opened Bytes
  import opened Buffer
  import opened Io
  import opened Dirs
  import opened Env
  import Parse
  import Grammar
  import History
  import Script

  const ARGS_MAX: nat := 32
  const LINE_CUT: nat := 255

  // What is handed on: nothing, a pipeline over a text, or arguments for one command.
  datatype Command = Nothing | Piped(text: bytes, p: Parse.Pipeline) | Args(args: seq<bytes>)

  // ----- Arguments -----

  // The argument read back from an expansion buffer ends at a NUL.
  function ReadBack(exps: seq<bytes>): seq<bytes> {
    if exps == [] then [] else [Take(CString(exps[0]), ARG_MAX)] + ReadBack(exps[1..])
  }

  function ArgsOf(s: bytes, toks: seq<Slice>, ls: Listing): seq<bytes> {
    if toks == [] then [] else ReadBack(Expanded(Text(s, toks[0]), ls)) + ArgsOf(s, toks[1..], ls)
  }

  // The first 16 words, each expanded, and of all these arguments the first 32.
  function Simple(s: bytes, ls: Listing): Command {
    var toks := Runs(s, 0, 16);
    if toks == [] then Nothing else Args(Take(ArgsOf(s, toks, ls), ARGS_MAX))
  }

  // ----- The two evaluators -----

  function Substituted(t: Table, line: bytes): bytes {
    Take(ExpandVars(t, Take(ExpandTilde(t, line, true), CAPACITY)), CAPACITY)
  }

  function PipedCommand(s: bytes): Command {
    Piped(Take(s, LINE_CUT), Parse.Parsed(Take(s, LINE_CUT)))
  }

  // A script line is looked at for operators after its substitutions,
  function ScriptCommand(t: Table, line: bytes, ls: Listing): Command {
    var s := Substituted(t, line);
    if HasOp(s) then PipedCommand(s) else Simple(s, ls)
  }

  // an interactive line before them: a pipeline gets no substitutions.
  function EvalCommand(log: seq<bytes>, t: Table, raw: bytes, ls: Listing): Command {
    var s := Take(History.Expand(log, raw), CAPACITY);
    if s == [] then Nothing
    else if HasOp(s) then PipedCommand(s)
    else Simple(Substituted(t, s), ls)
  }

  // What is stored is the line that is evaluated.
  function EvalLog(log: seq<bytes>, t: Table, raw: bytes): seq<bytes> {
    var s := Take(History.Expand(log, raw), CAPACITY);
    if s == [] then log
    else if HasOp(s) then History.Pushed(log, Take(s, LINE_CUT))
    else if Substituted(t, s) == [] then log
    else History.Pushed(log, Substituted(t, s))
  }

  // ----- The code -----

  lemma ReadStep(exps: seq<bytes>, j: nat, before: seq<bytes>)
    requires j < |exps|
    ensures before + ReadBack(exps[j..]) == (before + [Take(CString(exps[j]), ARG_MAX)]) + ReadBack(exps[j + 1..])
  {
    assert exps[j..][1..] == exps[j + 1..];
    Assoc(before, [Take(CString(exps[j]), ARG_MAX)], ReadBack(exps[j + 1..]));
  }

  lemma ArgsStep(s: bytes, toks: seq<Slice>, ls: Listing, k: nat, before: seq<bytes>)
    requires k < |toks|
    ensures before + ArgsOf(s, toks[k..], ls) ==
            (before + ReadBack(Expanded(Text(s, toks[k]), ls))) + ArgsOf(s, toks[k + 1..], ls)
  {
    hide Expanded, ReadBack;
    assert toks[k..][1..] == toks[k + 1..];
    Assoc(before, ReadBack(Expanded(Text(s, toks[k]), ls)), ArgsOf(s, toks[k + 1..], ls));
  }

  // The first n elements are settled once there are n of them.
  lemma Settled<T>(a: seq<T>, b: seq<T>, n: nat)
    requires |a| == n
    ensures Take(a + b, n) == a
  {
  }

  // The inner loop over the expansions of one word.
  method AddArgs(args: seq<bytes>, exps: seq<bytes>) returns (r: seq<bytes>)
    requires |args| <= ARGS_MAX
    ensures r == Take(args + ReadBack(exps), ARGS_MAX)
  {
    hide CString, ReadBack;
    r := args;
    var j := 0;
    assert exps[0..] == exps;
    while j < |exps|
      invariant 0 <= j <= |exps| && |r| <= ARGS_MAX
      invariant r + ReadBack(exps[j..]) == args + ReadBack(exps)
    {
      if |r| >= ARGS_MAX {
        Settled(r, ReadBack(exps[j..]), ARGS_MAX);
        return;
      }
      ReadStep(exps, j, r);
      r := r + [Take(CString(exps[j]), ARG_MAX)];
      j := j + 1;
    }
    assert exps[j..] == [];
    ReadNone();
    Unit(r);
  }

  lemma ReadNone()
    ensures ReadBack([]) == []
  {
  }

  method CollectArgs(s: bytes, toks: seq<Slice>, ls: Listing) returns (args: seq<bytes>)
    ensures args == Take(ArgsOf(s, toks, ls), ARGS_MAX)
  {
    hide Expanded, ReadBack, ArgsOf;
    args := [];
    var k := 0;
    assert toks[0..] == toks;
    Unit(ArgsOf(s, toks, ls));
    while k < |toks|
      invariant 0 <= k <= |toks| && |args| <= ARGS_MAX
      invariant Take(args + ArgsOf(s, toks[k..], ls), ARGS_MAX) == Take(ArgsOf(s, toks, ls), ARGS_MAX)
    {
      var exps := GlobExpand(Text(s, toks[k]), ls);
      ArgsStep(s, toks, ls, k, args);
      ghost var more := args + ReadBack(exps);
      args := AddArgs(args, exps);
      TakeConcat(more, ArgsOf(s, toks[k + 1..], ls), ARGS_MAX);
      if |args| >= ARGS_MAX {
        Settled(args, ArgsOf(s, toks[k + 1..], ls), ARGS_MAX);
        return;
      }
      k := k + 1;
    }
    assert toks[k..] == [];
    NoArgsOf(s, ls);
    Unit(args);
  }

  lemma NoArgsOf(s: bytes, ls: Listing)
    ensures ArgsOf(s, [], ls) == []
  {
  }

  // Words, expansions and the call of a single command.
  method RunSimple(s: bytes, ls: Listing) returns (c: Command)
    ensures c == Simple(s, ls)
  {
    hide Runs, ArgsOf;
    var tokens := new Slice[16](_ => Slice(0, 0));
    var ntok := Tokenize(s, tokens);
    if ntok == 0 {
      return Nothing;
    }
    var args := CollectArgs(s, tokens[..ntok], ls);
    c := Args(args);
  }

  method RunPiped(s: bytes) returns (c: Command)
    ensures c == PipedCommand(s)
  {
    var n := Min(|s|, LINE_CUT);
    var p := Parse.ParseLine(s[..n]);
    c := Piped(s[..n], p);
  }

  method ExecuteLine(env: EnvTable, line: bytes, ls: Listing) returns (c: Command)
    requires env.Valid()
    ensures c == ScriptCommand(env.table, line, ls)
  {
    hide ExpandVars, ExpandTilde, Simple, PipedCommand;
    var expanded := env.ExpandTildeInto(line);
    expanded := env.ExpandVarsInto(expanded);
    if HasOp(expanded) {
      c := RunPiped(expanded);
    } else {
      c := RunSimple(expanded, ls);
    }
  }

  lemma SimpleEmpty(ls: Listing)
    ensures Simple([], ls) == Nothing
  {
  }

  method EvalLine(hist: History.Ring, env: EnvTable, raw: bytes, ls: Listing) returns (c: Command)
    requires hist.Valid() && env.Valid() && hist.count + 1 < U64_LIMIT
    modifies hist`count, hist`log, hist.slots, hist.lens
    ensures hist.Valid()
    ensures c == EvalCommand(old(hist.log), old(env.table), raw, ls)
    ensures hist.log == EvalLog(old(hist.log), old(env.table), raw)
  {
    hide ExpandVars, ExpandTilde, Simple, PipedCommand, History.Expand, History.Pushed;
    if raw == [] {
      assert History.Expand(hist.log, []) == [] by { History.ExpandEmpty(hist.log); }
      return Nothing;
    }
    var s := hist.HistoryExpand(raw);
    if s == [] {
      return Nothing;
    }
    if HasOp(s) {
      hist.Push(s[..Min(|s|, LINE_CUT)]);
      c := RunPiped(s);
      return;
    }
    var expanded := env.ExpandTildeInto(s);
    expanded := env.ExpandVarsInto(expanded);
    if expanded == [] {
      SimpleEmpty(ls);
      return Nothing;
    }
    hist.Push(expanded);
    c := RunSimple(expanded, ls);
  }

  // ----- Plain lines -----

  // Bytes that no stage of the evaluation treats specially.
  predicate IsPlainByte(b: byte) {
    && b != BANG && b != TILDE && b != DOLLAR && b != NUL
    && b != STAR && b != QUESTION && b != OPEN
    && b != PIPE && b != LESS && b != GREATER
  }

  predicate IsPlainLine(line: bytes) {
    forall k :: 0 <= k < |line| ==> IsPlainByte(line[k])
  }

  lemma {:induction false} NoTilde(t: Table, line: bytes, atStart: bool)
    requires TILDE !in line
    ensures ExpandTilde(t, line, atStart) == line
    decreases |line|
  {
    hide ExpandTilde;
    if line == [] {
      TildeEmpty(t);
    } else {
      var b := line[0];
      assert b in line && line == [b] + line[1..];
      NoTilde(t, line[1..], StartsWord(b));
      TildePlain(t, b, line[1..], atStart);
    }
  }

  lemma NoDollar(t: Table, line: bytes)
    requires DOLLAR !in line
    ensures ExpandVars(t, line) == line
  {
    hide ExpandVars;
    PlainExpands(t, line, []);
    ExpandEmpty(t);
    Unit(line);
  }

  lemma PlainSubstituted(t: Table, line: bytes)
    requires IsPlainLine(line) && |line| <= CAPACITY
    ensures Substituted(t, line) == line && !HasOp(line) && BANG !in line
  {
    hide ExpandVars, ExpandTilde;
    NoTilde(t, line, true);
    NoDollar(t, line);
    assert Take(line, CAPACITY) == line;
  }

  lemma PlainWord(w: bytes, ls: Listing)
    requires IsPlainLine(w) && |w| <= ARG_MAX
    ensures ReadBack(Expanded(w, ls)) == [w]
  {
    assert !HasGlob(w);
    assert Take(w, ARG_MAX) == w;
    assert forall k :: 0 <= k < |w| ==> IsPlainByte(w[k]);
    CStringIs(w);
    assert [w][1..] == [];
    ReadNone();
  }

  lemma {:induction false} PlainArgs(s: bytes, toks: seq<Slice>, ls: Listing)
    requires IsPlainLine(s) && forall k :: 0 <= k < |toks| ==> toks[k].len <= ARG_MAX
    ensures ArgsOf(s, toks, ls) == Texts(s, toks)
  {
    hide Expanded, ReadBack;
    if toks != [] {
      var w := Text(s, toks[0]);
      assert IsPlainLine(w);
      PlainWord(w, ls);
      PlainArgs(s, toks[1..], ls);
      assert Texts(s, toks) == [w] + Texts(s, toks[1..]);
    }
  }

  // Main result, through every stage: a plain line reaches its command, interactively and in
  // a script, as exactly the texts of its first 16 words.
  lemma PlainLine(log: seq<bytes>, t: Table, line: bytes, ls: Listing)
    requires IsPlainLine(line) && |line| <= LINE_CUT
    requires forall k :: 0 <= k < |Runs(line, 0, 16)| ==> Runs(line, 0, 16)[k].len <= ARG_MAX
    ensures var words := Texts(line, Runs(line, 0, 16));
            var c := if words == [] then Nothing else Args(words);
            ScriptCommand(t, line, ls) == c && EvalCommand(log, t, line, ls) == c
  {
    hide Runs, Substituted, HasOp, ArgsOf, History.Expand;
    PlainSubstituted(t, line);
    History.ExpandFree(log, line);
    RunsCover(line, 0, 16);
    PlainArgs(line, Runs(line, 0, 16), ls);
    assert Take(line, CAPACITY) == line;
    assert Take(Texts(line, Runs(line, 0, 16)), ARGS_MAX) == Texts(line, Runs(line, 0, 16));
    if line == [] {
      RunsStep(line, 0, 16);
    }
  }

  // ----- Which lines are pipelines, and what becomes of the others -----

  // Main result: an operator makes a line a pipeline: < (60), > (62) or | (124), looked for by
  // the interactive evaluator behind the references and by the script runner behind the
  // substitutions.
  lemma PipedIff(log: seq<bytes>, t: Table, line: bytes, ls: Listing)
    ensures var s, c := Take(History.Expand(log, line), 256), EvalCommand(log, t, line, ls);
            && (c.Piped? <==> Operator(s))
            && (c.Piped? ==> c.text == s[..Min(|s|, 255)] && c.p == Parse.Parsed(c.text))
    ensures var s, c := Substituted(t, line), ScriptCommand(t, line, ls);
            && (c.Piped? <==> Operator(s))
            && (c.Piped? ==> c.text == s[..Min(|s|, 255)] && c.p == Parse.Parsed(c.text))
  {
    hide Simple, Substituted, History.Expand, Parse.Parsed;
    var s := Take(History.Expand(log, line), 256);
    OperatorIs(s);
    OperatorIs(Substituted(t, line));
    SimpleNotPiped(Substituted(t, s), ls);
    SimpleNotPiped(Substituted(t, line), ls);
  }

  predicate Operator(s: bytes) {
    60 in s || 62 in s || 124 in s
  }

  lemma OperatorIs(s: bytes)
    ensures HasOp(s) <==> Operator(s)
  {
  }

  // For instance a word, one operator alone, and a word.
  lemma OneOperator(log: seq<bytes>, t: Table, w: bytes, op: byte, f: bytes, ls: Listing)
    requires IsPlainLine(w) && IsPlainLine(f) && |w| + |f| <= 252 && (op == 60 || op == 62 || op == 124)
    ensures var line := w + [32, op, 32] + f;
            && EvalCommand(log, t, line, ls) == Piped(line, Parse.Parsed(line))
            && ScriptCommand(t, line, ls) == Piped(line, Parse.Parsed(line))
  {
    hide Substituted, Simple, Parse.Parsed, History.Expand;
    var line := w + [32, op, 32] + f;
    forall k | 0 <= k < |line| ensures line[k] == op || IsPlainByte(line[k]) {
      assert line[k] == if k < |w| then w[k] else if k < |w| + 3 then [32, op, 32][k - |w|] else f[k - |w| - 3];
    }
    assert line[|w| + 1] == op;
    assert HasOp(line);
    History.ExpandFree(log, line);
    FreeSubstituted(t, line);
    assert Take(line, CAPACITY) == line && Take(line, LINE_CUT) == line;
  }

  lemma FreeSubstituted(t: Table, line: bytes)
    requires TILDE !in line && DOLLAR !in line && |line| <= CAPACITY
    ensures Substituted(t, line) == line
  {
    hide ExpandVars, ExpandTilde;
    NoTilde(t, line, true);
    NoDollar(t, line);
    assert Take(line, CAPACITY) == line;
  }

  // The order of the stages. What a reference recalls is evaluated as if typed,
  lemma RecallEvaluates(log: seq<bytes>, t: Table, ls: Listing)
    requires log != [] && BANG !in log[|log| - 1]
    ensures EvalCommand(log, t, [33, 33], ls) == EvalCommand(log, t, log[|log| - 1], ls)
  {
    hide History.Expand, Substituted, Simple, PipedCommand;
    var e := log[|log| - 1];
    History.BangBang(log, []);
    History.ExpandEmpty(log);
    assert [33, 33] + [] == [33, 33];
    Unit(e);
    History.ExpandFree(log, e);
  }

  // a value is not looked at again, not even for a '~' or a '$' in it,
  lemma ValueVerbatim(t: Table, name: bytes)
    requires name != [] && !(48 <= name[0] <= 57) && forall k :: 0 <= k < |name| ==> InName(name[k])
    requires |name| < 256 && Lookup(t, name).Some?
    ensures Substituted(t, [36] + name) == Take(Lookup(t, name).value, 256)
  {
    hide ExpandTilde, ExpandVars, Lookup;
    var line := [36] + name;
    assert TILDE !in line;
    NoTilde(t, line, true);
    NamedExpands(t, name, []);
    ExpandEmpty(t);
    Unit(line);
    Unit(ValueOf(t, name));
    assert Take(line, CAPACITY) == line;
  }

  // and wildcards come last: the arguments are those of the words of the substituted text, one
  // word after the other.
  lemma {:induction false} ArgsConcat(s: bytes, a: seq<Slice>, b: seq<Slice>, ls: Listing)
    ensures ArgsOf(s, a + b, ls) == ArgsOf(s, a, ls) + ArgsOf(s, b, ls)
    decreases |a|
  {
    hide ReadBack, Expanded;
    if a == [] {
      Unit(b);
    } else {
      assert (a + b)[1..] == a[1..] + b;
      ArgsConcat(s, a[1..], b, ls);
      Assoc(ReadBack(Expanded(Text(s, a[0]), ls)), ArgsOf(s, a[1..], ls), ArgsOf(s, b, ls));
    }
  }

  // Each expansion of a word is an argument, up to a NUL.
  lemma ArgsOfWord(s: bytes, w: Slice, ls: Listing, k: nat)
    ensures var exps := Expanded(Text(s, w), ls);
            && |ArgsOf(s, [w], ls)| == |exps|
            && (k < |exps| && |exps[k]| <= 127 ==> ArgsOf(s, [w], ls)[k] == CString(exps[k]))
  {
    hide Expanded, CString;
    var exps := Expanded(Text(s, w), ls);
    assert [w][1..] == [];
    NoArgsOf(s, ls);
    Unit(ReadBack(exps));
    ReadBackAt(exps, k);
    if k < |exps| {
      CStringIs(exps[k]);
    }
  }

  lemma {:induction false} ReadBackAt(exps: seq<bytes>, k: nat)
    ensures |ReadBack(exps)| == |exps|
    ensures k < |exps| ==> ReadBack(exps)[k] == Take(CString(exps[k]), 127)
  {
    hide CString;
    if exps != [] {
      ReadBackAt(exps[1..], if k > 0 then k - 1 else 0);
    }
  }

  // Of 16 words and 32 arguments the rest is lost.
  lemma SimpleIs(s: bytes, ls: Listing)
    ensures Simple(s, ls) == if AllRuns(s, 0) == [] then Nothing
                             else Args(Take(ArgsOf(s, Take(AllRuns(s, 0), 16), ls), 32))
  {
    hide ArgsOf, AllRuns;
    RunsAll(s, 0, 16);
  }

  // The two evaluators give the same command for a line without '!' exactly when the
  // substitutions change nothing about a line with operators, and bring no operator into a
  // line without.
  lemma EvaluatorsAgree(log: seq<bytes>, t: Table, line: bytes, ls: Listing)
    requires BANG !in line && |line| <= LINE_CUT
    ensures EvalCommand(log, t, line, ls) == ScriptCommand(t, line, ls) <==>
            if HasOp(line) then Take(Substituted(t, line), LINE_CUT) == line else !HasOp(Substituted(t, line))
  {
    hide Simple, Substituted, History.Expand, Parse.Parsed;
    History.ExpandFree(log, line);
    assert Take(line, CAPACITY) == line && Take(line, LINE_CUT) == line;
    var s := Substituted(t, line);
    if line == [] {
      PlainSubstituted(t, []);
      SimpleEmpty(ls);
    } else if HasOp(line) {
      if Take(s, LINE_CUT) == line {
        var k :| 0 <= k < |line| && (line[k] == PIPE || line[k] == GREATER || line[k] == LESS);
        assert s[k] == line[k];
        assert HasOp(s);
      }
      assert !HasOp(s) ==> !Simple(s, ls).Piped? by { SimpleNotPiped(s, ls); }
    } else {
      assert !Simple(s, ls).Piped? by { SimpleNotPiped(s, ls); }
    }
  }

  lemma SimpleNotPiped(s: bytes, ls: Listing)
    ensures !Simple(s, ls).Piped?
  {
  }

  // ----- What the evaluation of a line stores -----

  // The text that is evaluated, and stored: a pipeline as it is, any other line substituted.
  function StoredText(t: Table, s: bytes): bytes {
    if HasOp(s) then Take(s, LINE_CUT) else Substituted(t, s)
  }

  // Nothing is stored exactly when that text is empty but for trailing line ends, or is the
  // last entry already.
  lemma EvalStores(log: seq<bytes>, t: Table, raw: bytes)
    ensures var s := Take(History.Expand(log, raw), CAPACITY);
            var trimmed := History.Trim(StoredText(t, s));
            EvalLog(log, t, raw) == log <==>
            s == [] || trimmed == [] || (log != [] && log[|log| - 1] == trimmed)
  {
    hide Substituted, History.Expand, History.Trim;
    assert History.Trim([]) == [] by { TrimNothing(); }
    var s := Take(History.Expand(log, raw), CAPACITY);
    PushedSame(log, StoredText(t, s));
  }

  lemma TrimNothing()
    ensures History.Trim([]) == []
  {
  }

  lemma PushedSame(log: seq<bytes>, line: bytes)
    ensures var trimmed := History.Trim(line);
            History.Pushed(log, line) == log <==> trimmed == [] || (log != [] && log[|log| - 1] == trimmed)
  {
    hide History.Trim;
    assert |log + [Take(History.Trim(line), History.HISTORY_LINE_MAX - 1)]| != |log|;
  }

  // A line typed in raw mode is stored as typed, and what it expands to is stored again: one
  // entry is left exactly when the second text is empty or is the first one, cut to 127 bytes.
  lemma StoredOnce(log: seq<bytes>, t: Table, line: bytes)
    requires History.EntriesFit(log) && History.Trim(line) != []
    ensures var once := History.Pushed(log, line);
            var s := Take(History.Expand(once, line), CAPACITY);
            var second := History.Trim(StoredText(t, s));
            EvalLog(once, t, line) == once <==>
            s == [] || second == [] || second == Take(History.Trim(line), History.HISTORY_LINE_MAX - 1)
  {
    hide StoredText, EvalLog, History.Expand, History.Trim;
    History.PushedLast(log, line);
    EvalStores(History.Pushed(log, line), t, line);
  }

  // So for a line without references and operators it is the substitutions that matter.
  lemma FreeLineStoredOnce(log: seq<bytes>, t: Table, line: bytes)
    requires History.EntriesFit(log) && History.Trim(line) != []
    requires BANG !in line && !HasOp(line) && |line| <= LINE_CUT
    ensures var once := History.Pushed(log, line);
            var second := History.Trim(Substituted(t, line));
            EvalLog(once, t, line) == once <==>
            second == [] || second == Take(History.Trim(line), History.HISTORY_LINE_MAX - 1)
  {
    hide Substituted, EvalLog, HasOp, History.Expand, History.Trim;
    StoredOnce(log, t, line);
    History.ExpandFree(History.Pushed(log, line), line);
    assert Take(line, CAPACITY) == line;
    assert line != [] by { TrimNothing(); }
  }

  // For instance a typed "$A" leaves two entries when A is B.
  const VAR: bytes := [DOLLAR, 'A' as int]
  const VAL: bytes := ['B' as int]
  const ONE_VAR: Table := [Binding(['A' as int], VAL)]

  lemma VarSubstituted()
    ensures Substituted(ONE_VAR, VAR) == VAL
  {
    hide ExpandTilde, ExpandVars, Find;
    var name: bytes := ['A' as int];
    assert VAR == [DOLLAR] + name + [];
    FindIs(ONE_VAR, name, 0);
    NoTilde(ONE_VAR, VAR, true);
    NamedExpands(ONE_VAR, name, []);
    ExpandEmpty(ONE_VAR);
    Unit(VAL);
    assert Take(VAR, CAPACITY) == VAR && Take(VAL, CAPACITY) == VAL;
  }

  lemma ShortPushed(log: seq<bytes>, line: bytes)
    requires 0 < |line| < History.HISTORY_LINE_MAX && History.Trim(line) == line
    requires log == [] || log[|log| - 1] != line
    ensures History.Pushed(log, line) == log + [line]
  {
    assert Take(line, History.HISTORY_LINE_MAX - 1) == line;
  }

  lemma VariableStoredTwice()
    ensures EvalLog(History.Pushed([], VAR), ONE_VAR, VAR) == [VAR, VAL]
  {
    hide Substituted, History.Expand, History.Pushed;
    VarSubstituted();
    assert History.Trim(VAR) == VAR && History.Trim(VAL) == VAL;
    ShortPushed([], VAR);
    assert [] + [VAR] == [VAR] && [VAR] + [VAL] == [VAR, VAL];
    ShortPushed([VAR], VAL);
    History.ExpandFree([VAR], VAR);
    assert VAL != [] && VAR != VAL;
    assert Take(VAR, CAPACITY) == VAR && !HasOp(VAR);
  }

  // A plain line is stored once exactly when it needed no cut or was there already.
  lemma PlainLineStoredOnce(log: seq<bytes>, t: Table, line: bytes)
    requires IsPlainLine(line) && line != [] && |line| <= LINE_CUT
    ensures var once := History.Pushed(log, line);
            EvalLog(once, t, line) == once <==>
            |History.Trim(line)| < History.HISTORY_LINE_MAX || (log != [] && log[|log| - 1] == History.Trim(line))
  {
    hide Substituted, HasOp, History.Expand, History.Trim;
    var once := History.Pushed(log, line);
    PlainSubstituted(t, line);
    History.ExpandFree(once, line);
    assert Take(line, CAPACITY) == line;
    var trimmed := History.Trim(line);
    assert |trimmed| < History.HISTORY_LINE_MAX ==> Take(trimmed, History.HISTORY_LINE_MAX - 1) == trimmed;
  }

  // ----- Scripts that run scripts -----

  const SOURCE: bytes := ['s' as int, 'o' as int, 'u' as int, 'r' as int, 'c' as int, 'e' as int]

  // The script that these arguments source, if they do.
  function TargetOf(args: seq<bytes>): Option<bytes> {
    if |args| > 1 && (args[0] == SOURCE || args[0] == [DOT]) then Some(args[1]) else None
  }

  // The shell runs a command itself when it has no operators, and when its pipeline is one
  // foreground segment without redirects, such as "source f |".
  predicate OneInShell(p: Parse.Pipeline) {
    |p.segments| == 1 && p.stdoutFile.len == 0 && p.stdinFile.len == 0 && !p.background
  }

  function Target(c: Command): Option<bytes> {
    match c
    case Nothing => None
    case Args(args) => TargetOf(args)
    case Piped(text, p) => if OneInShell(p) then TargetOf(Parse.ArgTexts(text, p.segments[0])) else None
  }

  const EXIT: bytes := ['e' as int, 'x' as int, 'i' as int, 't' as int]
  const LOGOUT: bytes := ['l' as int, 'o' as int, 'g' as int, 'o' as int, 'u' as int, 't' as int]
  const EXEC: bytes := ['e' as int, 'x' as int, 'e' as int, 'c' as int]

  // What exec makes of its arguments: it fails, it runs a script of this shell in the same
  // process and exits, or another program takes the shell's place.
  datatype ExecAnswer = NotRun | OwnScript(path: bytes) | Replaced

  // The shell's surroundings, by state: environment, directories, what dispatching a command
  // does to the state, what exec answers, and whether a command's redirects can be opened.
  datatype Host<!S> = Host(table: S -> Table, listing: S -> Listing, dispatch: (S, Command) -> S,
                           exec: (S, seq<bytes>) -> ExecAnswer, opens: (S, Command) -> bool)

  function ExecStep(answer: ExecAnswer): Script.Step {
    match answer
    case NotRun => Script.Continues
    case OwnScript(path) => Script.Executes(path)
    case Replaced => Script.Exits
  }

  // What follows a command that the shell runs itself.
  function CommandStep<S>(h: Host<S>, s: S, args: seq<bytes>): Script.Step {
    if TargetOf(args).Some? then Script.Sources(TargetOf(args).value)
    else if args == [] then Script.Continues
    else if args[0] == EXIT || args[0] == LOGOUT then Script.Exits
    else if args[0] == EXEC && |args| > 1 then ExecStep(h.exec(s, args[1..]))
    else Script.Continues
  }

  // A single "exit" with redirects is run by the shell as well.
  predicate RedirectedExit(text: bytes, p: Parse.Pipeline) {
    |p.segments| == 1 && p.segments[0] != [] && Text(text, p.segments[0][0]) == EXIT &&
    (p.stdoutFile.len > 0 || p.stdinFile.len > 0)
  }

  function StepOf<S>(h: Host<S>, s: S, c: Command): Script.Step {
    match c
    case Nothing => Script.Continues
    case Args(args) => CommandStep(h, s, args)
    case Piped(text, p) =>
      if OneInShell(p) then CommandStep(h, s, Parse.ArgTexts(text, p.segments[0]))
      else if RedirectedExit(text, p) && h.opens(s, c) then Script.Exits
      else Script.Continues
  }

  lemma TargetIsSourced<S>(h: Host<S>, s: S, c: Command)
    ensures StepOf(h, s, c).Sources? <==> Target(c).Some?
    ensures Target(c).Some? ==> StepOf(h, s, c) == Script.Sources(Target(c).value)
  {
  }

  // The commands that decide what is executed next, by name; no other does.
  lemma StepsByName<S>(h: Host<S>, s: S, name: bytes, rest: seq<bytes>)
    ensures var step := StepOf(h, s, Args([name] + rest));
            step == if (name == Ascii("source") || name == Ascii(".")) && rest != [] then Script.Sources(rest[0])
                    else if name == Ascii("exit") || name == Ascii("logout") then Script.Exits
                    else if name == Ascii("exec") && rest != [] then
                      match h.exec(s, rest)
                      case NotRun => Script.Continues
                      case OwnScript(path) => Script.Executes(path)
                      case Replaced => Script.Exits
                    else Script.Continues
  {
    var args := [name] + rest;
    assert args[1..] == rest && args[0] == name && (rest != [] ==> args[1] == rest[0]);
    CommandNames();
    hide Ascii;
  }

  lemma CommandNames()
    ensures Ascii("source") == SOURCE && Ascii(".") == [DOT] && Ascii("exit") == EXIT
    ensures Ascii("logout") == LOGOUT && Ascii("exec") == EXEC
    ensures SOURCE[0] == 115 && EXIT[1] == 120 && LOGOUT[0] == 108 && EXEC[2] == 101
  {
  }

  // The script runner's oracle made concrete, up to what the host answers.
  function ScriptWorld<S>(contents: (S, bytes) -> Option<bytes>, h: Host<S>): Script.World<S> {
    Script.World(contents, (s, line) =>
      var c := ScriptCommand(h.table(s), line, h.listing(s));
      (h.dispatch(s, c), StepOf(h, s, c)))
  }

  // A script that ends in "exit" executes nothing behind it: the line ends the shell.
  lemma ExitEnds<S>(contents: (S, bytes) -> Option<bytes>, h: Host<S>, s: S, depth: nat, before: seq<bytes>,
                    behind: seq<bytes>)
    requires depth <= Script.DEPTH_MAX
    ensures var w := ScriptWorld(contents, h);
            Script.RunLines(w, s, depth, before + [EXIT] + behind) == Script.RunLines(w, s, depth, before + [EXIT])
    ensures Script.RunLines(ScriptWorld(contents, h), s, depth, before + [EXIT]).ended
  {
    hide ScriptCommand, Script.RunLines;
    var w := ScriptWorld(contents, h);
    Script.RunLinesConcat(w, s, depth, before + [EXIT], behind);
    Script.RunLinesConcat(w, s, depth, before, [EXIT]);
    var mid := Script.RunLines(w, s, depth, before);
    ExitRuns(h.table(mid.state), h.listing(mid.state));
    assert [EXIT][1..] == [];
    Script.RunLinesUnfold(w, mid.state, depth, [EXIT]);
    ExitSteps(h, mid.state);
    assert w.run(mid.state, EXIT).1 == Script.Exits;
    assert Script.RunLine(w, mid.state, depth, EXIT).ended;
  }

  lemma ExitSteps<S>(h: Host<S>, s: S)
    ensures StepOf(h, s, Args([EXIT])) == Script.Exits
  {
    var args: seq<bytes> := [EXIT];
    assert TargetOf(args) == None && args[0] == EXIT;
  }

  lemma ExitRuns(t: Table, ls: Listing)
    ensures ScriptCommand(t, EXIT, ls) == Args([EXIT])
  {
    hide ScriptCommand, Runs;
    var s := Slice(0, 4);
    assert MaximalRun(EXIT, s) && Covers(EXIT, 4, [], 15);
    assert [s][1..] == [];
    assert Covers(EXIT, 0, [s], 16);
    CoverUnique(EXIT, 0, [s], 16);
    assert Text(EXIT, s) == EXIT;
    assert Texts(EXIT, [s]) == [EXIT];
    PlainLine([], t, EXIT, ls);
  }

  // The line "source f".
  function SourceLine(f: bytes): bytes {
    SOURCE + [SPACE] + f
  }

  predicate IsWord(f: bytes) {
    f != [] && forall k :: 0 <= k < |f| ==> !IsBlank(f[k])
  }

  predicate IsPlainWord(f: bytes) {
    IsWord(f) && |f| <= ARG_MAX && IsPlainLine(f)
  }

  lemma SourceWords(f: bytes)
    requires IsWord(f)
    ensures Runs(SourceLine(f), 0, 16) == [Slice(0, 6), Slice(7, |f|)]
    ensures Texts(SourceLine(f), Runs(SourceLine(f), 0, 16)) == [SOURCE, f]
  {
    var line := SourceLine(f);
    var a, b := Slice(0, 6), Slice(7, |f|);
    assert forall k :: 0 <= k < |f| ==> line[k + 7] == f[k];
    assert line[6] == SPACE && line[..6] == SOURCE && line[7..] == f;
    assert forall k :: 0 <= k < 6 ==> line[k] == SOURCE[k] && !IsBlank(SOURCE[k]);
    assert forall k :: 7 <= k < |line| ==> line[k] == f[k - 7];
    assert MaximalRun(line, a) && MaximalRun(line, b);
    assert [a, b][1..] == [b] && [b][1..] == [];
    assert Covers(line, 7 + |f|, [], 14);
    assert Covers(line, 6, [b], 15);
    assert Covers(line, 0, [a, b], 16);
    CoverUnique(line, 0, [a, b], 16);
    assert Text(line, a) == SOURCE && Text(line, b) == f;
  }

  // The word behind "source" as the substitutions leave it.
  function Word(t: Table, w: bytes): bytes {
    ExpandVars(t, ExpandTilde(t, w, true))
  }

  lemma SourceSubstituted(t: Table, w: bytes)
    requires |ExpandTilde(t, w, true)| + 7 <= CAPACITY && |Word(t, w)| + 7 <= CAPACITY
    ensures Substituted(t, SourceLine(w)) == SourceLine(Word(t, w))
  {
    hide ExpandTilde, ExpandVars;
    TildeDistributes(t, SOURCE, w, true);
    assert TILDE !in SOURCE && DOLLAR !in SOURCE + [SPACE];
    NoTilde(t, SOURCE, true);
    var mid := SourceLine(ExpandTilde(t, w, true));
    PlainExpands(t, SOURCE + [SPACE], ExpandTilde(t, w, true));
    assert Take(mid, CAPACITY) == mid;
    assert Take(SourceLine(Word(t, w)), CAPACITY) == SourceLine(Word(t, w));
  }

  // In general: "source w" sources the first file that the word, substituted, expands to, as
  // long as it is still one word, holds no operator and fits the buffers.
  lemma SourceLineTarget(t: Table, w: bytes, ls: Listing)
    requires |ExpandTilde(t, w, true)| + 7 <= CAPACITY && |Word(t, w)| + 7 <= CAPACITY
    requires IsWord(Word(t, w)) && !HasOp(Word(t, w))
    ensures Target(ScriptCommand(t, SourceLine(w), ls)) ==
            Some(Take(CString(Expanded(Word(t, w), ls)[0]), ARG_MAX))
  {
    hide Runs, Expanded, Substituted, Word, CString;
    var g := Word(t, w);
    var s := SourceLine(g);
    SourceSubstituted(t, w);
    SourceWords(g);
    assert forall k :: 0 <= k < |s| ==> s[k] == if k < 6 then SOURCE[k] else if k == 6 then SPACE else g[k - 7];
    assert !HasOp(s);
    var toks := Runs(s, 0, 16);
    assert Text(s, toks[0]) == Texts(s, toks)[0] && Text(s, toks[1]) == Texts(s, toks)[1];
    PlainWord(SOURCE, ls);
    var rest := ReadBack(Expanded(g, ls));
    NoArgsOf(s, ls);
    assert toks[1..][1..] == [];
    Unit(rest);
    assert ArgsOf(s, toks, ls) == [SOURCE] + rest;
    assert rest[0] == Take(CString(Expanded(g, ls)[0]), ARG_MAX);
  }

  // In every state such a line with a plain word sources that script.
  lemma SourceLineSources(t: Table, f: bytes, ls: Listing)
    requires IsPlainWord(f)
    ensures Target(ScriptCommand(t, SourceLine(f), ls)) == Some(f)
  {
    hide Runs, ScriptCommand;
    SourceWords(f);
    var line := SourceLine(f);
    assert IsPlainLine(line) by {
      assert forall k :: 0 <= k < |line| ==> line[k] == if k < 6 then SOURCE[k] else if k == 6 then SPACE else f[k - 7];
    }
    PlainLine([], t, line, ls);
  }

  // So does the same line with a bar behind it, but the argument is cut to 63 bytes, and "&"
  // is no argument there.
  lemma SourcePipeSources(t: Table, f: bytes, ls: Listing)
    requires IsPlainWord(f)
    ensures Target(ScriptCommand(t, SourceLine(f) + [SPACE, PIPE], ls)) ==
            if f == [AMP] then None else Some(Take(f, Parse.ARG_MAX))
  {
    hide ExpandTilde, ExpandVars, Parse.Parsed, Parse.ArgTexts, OneInShell;
    var line := SourceLine(f) + [SPACE, PIPE];
    assert forall k :: 0 <= k < |line| ==>
        line[k] == if k < 6 then SOURCE[k] else if k == 6 then SPACE else if k < 7 + |f| then f[k - 7]
                   else if k == 7 + |f| then SPACE else PIPE;
    NoTilde(t, line, true);
    NoDollar(t, line);
    assert Take(line, CAPACITY) == line && Take(line, LINE_CUT) == line;
    assert HasOp(line) by { assert line[|line| - 1] == PIPE; }
    SourcePipeParses(f);
  }

  lemma SourcePipeParses(f: bytes)
    requires IsPlainWord(f)
    ensures var line := SourceLine(f) + [SPACE, PIPE];
            var p := Parse.Parsed(line);
            if f == [AMP] then !OneInShell(p)
            else OneInShell(p) && Parse.ArgTexts(line, p.segments[0]) == [SOURCE, Take(f, Parse.ARG_MAX)]
  {
    hide Parse.Parsed, Grammar.SentenceText, Grammar.SentenceOk, Grammar.SegWords, Grammar.SegTarget;
    var line := SourceLine(f) + [SPACE, PIPE];
    var items := SourceItems(f);
    var st := Grammar.Sentence([], [Grammar.Seg(items, [SPACE, PIPE])], []);
    PipeSentence(f);
    PipeMeans(f);
    Grammar.ParseInvertsPrint(st);
    Parse.ParsedInLine(line);
    var p := Parse.Parsed(line);
    var texts := Grammar.SegTexts(line, p.segments);
    assert p.background == (f == [AMP]);
    if f != [AMP] {
      assert texts == [[SOURCE, f]];
      assert texts[0] == Texts(line, p.segments[0]);
      hide Grammar.SegTexts;
      assert Text(line, p.segments[0][0]) == SOURCE && Text(line, p.segments[0][1]) == f;
      assert Take(SOURCE, Parse.ARG_MAX) == SOURCE;
    }
  }

  // A redirected "exit" is run by the shell, so it ends the script when its file can be opened.
  lemma RedirectedExitEnds<S>(h: Host<S>, s: S, f: bytes)
    requires IsPlainWord(f)
    ensures var line := EXIT + [32, 62, 32] + f;
            var c := ScriptCommand(h.table(s), line, h.listing(s));
            c.Piped? && StepOf(h, s, c) == if h.opens(s, c) then Script.Exits else Script.Continues
  {
    hide Parse.Parsed, ScriptCommand, Parse.ArgTexts;
    var line := EXIT + [32, 62, 32] + f;
    assert IsPlainLine(EXIT);
    OneOperator([], h.table(s), EXIT, 62, f, h.listing(s));
    ExitParses(f);
  }

  lemma ExitParses(f: bytes)
    requires IsPlainWord(f)
    ensures var line := EXIT + [32, 62, 32] + f;
            var p := Parse.Parsed(line);
            && |p.segments| == 1 && |p.segments[0]| == 1 && Text(line, p.segments[0][0]) == EXIT
            && p.stdoutFile.len > 0
  {
    hide Parse.Parsed, Grammar.SentenceText, Grammar.SentenceOk, Grammar.SegWords, Grammar.SegTarget;
    var line := EXIT + [32, 62, 32] + f;
    var items := ExitItems(f);
    var st := Grammar.Sentence([], [Grammar.Seg(items, [])], []);
    ExitSentence(f);
    ExitMeans(f);
    Grammar.ParseInvertsPrint(st);
    var p := Parse.Parsed(line);
    var texts := Grammar.SegTexts(line, p.segments);
    assert texts == [[EXIT]];
    assert texts[0] == Texts(line, p.segments[0]);
  }

  function ExitItems(f: bytes): seq<Grammar.Item> {
    [Grammar.Word([], EXIT), Grammar.Redirect([SPACE], GREATER, [SPACE], f)]
  }

  lemma ExitSentence(f: bytes)
    requires IsPlainWord(f)
    ensures var st := Grammar.Sentence([], [Grammar.Seg(ExitItems(f), [])], []);
            Grammar.SentenceOk(st) && Grammar.SentenceText(st) == EXIT + [32, 62, 32] + f
  {
    var items := ExitItems(f);
    var segs := [Grammar.Seg(items, [])];
    assert items[1..] == [items[1]] && items[1..][1..] == [] && segs[1..] == [];
    assert forall k :: 0 <= k < |f| ==> IsPlainByte(f[k]) && !IsBlank(f[k]);
    assert Grammar.ItemOk(items[0]) && Grammar.ItemOk(items[1]);
    assert Grammar.ItemsOk(items[1..], 1);
    assert Grammar.ItemsOk(items, 0);
    assert Grammar.EndOk(segs[0], false);
    assert Grammar.SegsOk(segs, false);
    assert Grammar.ItemsText(items[1..]) == [SPACE] + ([GREATER] + [SPACE] + f);
    assert Grammar.ItemsText(items) == EXIT + ([SPACE] + ([GREATER] + [SPACE] + f));
    assert Grammar.SegsText(segs) == EXIT + ([SPACE] + ([GREATER] + [SPACE] + f));
  }

  lemma ExitMeans(f: bytes)
    ensures var segs := [Grammar.Seg(ExitItems(f), [])];
            Grammar.SegWords(segs) == [[EXIT]] && Grammar.SegTarget(segs, GREATER, []) == f
  {
    var items := ExitItems(f);
    var segs := [Grammar.Seg(items, [])];
    assert items[1..] == [items[1]] && items[1..][1..] == [] && segs[1..] == [];
    assert Grammar.Words(items[1..]) == [];
    assert Grammar.Words(items) == [EXIT];
    assert Grammar.Target(items[1..], GREATER, []) == f;
    assert Grammar.Target(items, GREATER, []) == f;
  }

  function SourceItems(f: bytes): seq<Grammar.Item> {
    [Grammar.Word([], SOURCE), Grammar.Word([SPACE], f)]
  }

  // The line as a sentence of the command grammar, and what it means.
  lemma PipeSentence(f: bytes)
    requires IsPlainWord(f)
    ensures var st := Grammar.Sentence([], [Grammar.Seg(SourceItems(f), [SPACE, PIPE])], []);
            Grammar.SentenceOk(st) && Grammar.SentenceText(st) == SourceLine(f) + [SPACE, PIPE]
  {
    var items := SourceItems(f);
    var segs := [Grammar.Seg(items, [SPACE, PIPE])];
    assert items[1..] == [Grammar.Word([SPACE], f)] && items[1..][1..] == [] && segs[1..] == [];
    assert forall k :: 0 <= k < |f| ==> IsPlainByte(f[k]) && !IsBlank(f[k]);
    assert Grammar.ItemOk(items[0]) && Grammar.ItemOk(items[1]);
    assert Grammar.ItemsOk(items[1..], 1);
    assert Grammar.ItemsOk(items, 0);
    assert Grammar.EndOk(segs[0], false);
    assert Grammar.SegsOk(segs, false);
    assert Grammar.ItemsText(items[1..]) == [SPACE] + f;
    assert Grammar.ItemsText(items) == SOURCE + ([SPACE] + f);
    assert Grammar.SegsText(segs) == SOURCE + ([SPACE] + f) + [SPACE, PIPE];
  }

  lemma PipeMeans(f: bytes)
    ensures var segs := [Grammar.Seg(SourceItems(f), [SPACE, PIPE])];
            && Grammar.SegWords(segs) == [[SOURCE, f]]
            && Grammar.SegTarget(segs, GREATER, []) == [] && Grammar.SegTarget(segs, LESS, []) == []
  {
    var items := SourceItems(f);
    var segs := [Grammar.Seg(items, [SPACE, PIPE])];
    assert items[1..] == [Grammar.Word([SPACE], f)] && items[1..][1..] == [] && segs[1..] == [];
    assert Grammar.Words(items[1..]) == [f];
    assert Grammar.Words(items) == [SOURCE, f];
    forall op: byte ensures Grammar.Target(items, op, []) == [] {
      assert Grammar.Target(items[1..], op, []) == [];
    }
    assert Grammar.SegTarget(segs, GREATER, []) == Grammar.Target(items, GREATER, []);
    assert Grammar.SegTarget(segs, LESS, []) == Grammar.Target(items, LESS, []);
  }

  // A script of n such lines.
  function SelfSource(f: bytes, n: nat): bytes {
    if n == 0 then [] else SourceLine(f) + [LF] + SelfSource(f, n - 1)
  }

  lemma {:induction false} PendingReads(raw: bytes, line: bytes, rest: bytes)
    requires LF !in line && CR !in line && |raw| + |line| < Script.LINE_MAX
    ensures Script.Pending(raw, line + rest) == Script.Pending(raw + line, rest)
    decreases |line|
  {
    if line == [] {
      Unit(raw);
      Unit(rest);
    } else {
      assert line[0] in line && line == [line[0]] + line[1..];
      DropHead([line[0]], line[1..] + rest);
      Assoc([line[0]], line[1..], rest);
      PendingReads(raw + [line[0]], line[1..], rest);
      Assoc(raw, [line[0]], line[1..]);
    }
  }

  lemma {:induction false} SelfSourceLines(f: bytes, n: nat)
    requires IsPlainWord(f)
    ensures |Script.ScriptLines(SelfSource(f, n))| == n
    ensures forall k :: 0 <= k < n ==> Script.ScriptLines(SelfSource(f, n))[k] == SourceLine(f)
  {
    hide Script.ScriptLines;
    var c := SelfSource(f, n);
    Script.PendingIsLines(c);
    if n > 0 {
      var line := SourceLine(f);
      var rest := [LF] + SelfSource(f, n - 1);
      Assoc(line, [LF], SelfSource(f, n - 1));
      assert forall k :: 0 <= k < |line| ==> line[k] == if k < 6 then SOURCE[k] else if k == 6 then SPACE else f[k - 7];
      PendingReads([], line, rest);
      Unit(line);
      DropHead([LF], SelfSource(f, n - 1));
      Script.PendingIsLines(SelfSource(f, n - 1));
      SelfSourceLines(f, n - 1);
      assert line[0] != HASH;
      assert c == line + rest;
    }
  }

  // The bound on executed lines is tight for real scripts: with a file of L lines that each
  // source the file itself, sourcing it executes exactly L + L^2 + ... + L^8 lines.
  lemma SelfSourcingScript<S(!new)>(h: Host<S>, s: S, f: bytes, lines: nat)
    requires IsPlainWord(f)
    ensures var w := ScriptWorld((s, name) => Some(SelfSource(f, lines)), h);
            |Script.Source(w, s, 0, f).log| == Script.PowSum(lines, Script.DEPTH_MAX)
  {
    hide ScriptCommand, Target, StepOf, SourceLine, SelfSource, Script.ScriptLines, Script.Source, Script.PowSum;
    var w := ScriptWorld((s, name) => Some(SelfSource(f, lines)), h);
    SelfSourceLines(f, lines);
    var ls := Script.ScriptLines(SelfSource(f, lines));
    forall k, s | 0 <= k < |ls|
      ensures w.run(s, ls[k]).1.Sources?
    {
      SourceLineSources(h.table(s), f, h.listing(s));
      TargetIsSourced(h, s, ScriptCommand(h.table(s), SourceLine(f), h.listing(s)));
    }
    Script.SourceReachesBound(w, s, 0, f, lines);
  }
}
