// The raw-mode line editor (src/repl/raw.rs): keystrokes edit a flat buffer and emit
// incremental redraws. The reference is a zipper; the redraws are checked on a terminal.
module Raw {
  import opened Bytes
  import opened Terminal
  import History
  import Io
  import Complete
  import Dirs

  const LINE_MAX: nat := 256
  const PROMPT: bytes := ['o' as int, 's' as int, 'h' as int, DOLLAR, SPACE]

  // ----- Keys -----

  datatype Key =
    | Up | Down | Left | Right | Rubout | Tab | Enter | Interrupt | EndOfInput
    | Insert(b: byte) | Ignored

  // The key at the head of what is left of a chunk, and how many bytes it takes. An escape
  // sequence is only seen when all of it is in the chunk.
  function Decode(rx: bytes): (r: (Key, nat))
    requires rx != []
    ensures 0 < r.1 <= |rx|
  {
    if rx[0] == ESC && |rx| > 2 then
      if rx[1] == OPEN && rx[2] == 'A' as int then (Up, 3)
      else if rx[1] == OPEN && rx[2] == 'B' as int then (Down, 3)
      else if rx[1] == OPEN && rx[2] == 'C' as int then (Right, 3)
      else if rx[1] == OPEN && rx[2] == 'D' as int then (Left, 3)
      else (Ignored, 1)
    else if rx[0] == CR || rx[0] == LF then (Enter, 1)
    else if rx[0] == DEL || rx[0] == BACKSPACE then (Rubout, 1)
    else if rx[0] == TAB then (Tab, 1)
    else if rx[0] == CTRL_C then (Interrupt, 1)
    else if rx[0] == CTRL_D then (EndOfInput, 1)
    else if IsPrintable(rx[0]) then (Insert(rx[0]), 1)
    else (Ignored, 1)
  }

  // What a terminal sends for a key.
  function Keystroke(key: Key): bytes
    requires !key.Ignored?
  {
    match key
    case Up => [ESC, OPEN, 'A' as int]
    case Down => [ESC, OPEN, 'B' as int]
    case Right => GO_RIGHT
    case Left => GO_LEFT
    case Rubout => [DEL]
    case Tab => [TAB]
    case Enter => [CR]
    case Interrupt => [CTRL_C]
    case EndOfInput => [CTRL_D]
    case Insert(b) => [b]
  }

  // Each key is recognized from its bytes, whatever follows them in the same read.
  lemma DecodeKeystroke(key: Key, rest: bytes)
    requires !key.Ignored? && (key.Insert? ==> IsPrintable(key.b))
    ensures Keystroke(key) != [] && Decode(Keystroke(key) + rest) == (key, |Keystroke(key)|)
  {
    var rx := Keystroke(key) + rest;
    assert forall k :: 0 <= k < |Keystroke(key)| ==> rx[k] == Keystroke(key)[k];
  }

  // ----- The zipper editor -----

  // The text in front of and behind the cursor.
  datatype Zip = Zip(before: bytes, after: bytes)

  function Text(z: Zip): bytes {
    z.before + z.after
  }

  // The zipper and the history cursor.
  datatype Editor = Editor(z: Zip, nav: int)

  // A line at its start.
  const FRESH: Editor := Editor(Zip([], []), -1)

  // What the editor looks things up in: the history log and the directories.
  datatype Context = Context(log: seq<bytes>, ls: Dirs.Listing)

  ghost predicate EditorOk(c: Context, e: Editor) {
    |Text(e.z)| < LINE_MAX && History.CursorOk(c.log, e.nav)
  }

  // A recalled or completed line, cut to 255 bytes, with the cursor at most at its end.
  function Load(text: bytes, cursor: nat): Zip {
    var t := Take(text, LINE_MAX - 1);
    var n := Min(cursor, |t|);
    Zip(t[..n], t[n..])
  }

  function LoadEntry(entry: bytes): Zip {
    Zip(Take(entry, LINE_MAX - 1), [])
  }

  lemma LoadWholeEntry(entry: bytes)
    ensures Load(entry, |entry|) == LoadEntry(entry)
  {
  }

  function Completion(c: Context, z: Zip): Complete.TabResult {
    Complete.Completed(Text(z), |z.before|, c.ls)
  }

  // The effect of a key on the editor.
  function Apply(c: Context, e: Editor, key: Key): Editor
    requires History.CursorOk(c.log, e.nav)
  {
    var z := e.z;
    match key
    case Up =>
      var (entry, nav) := History.Up(c.log, e.nav);
      Editor(if entry.Some? then LoadEntry(entry.value) else z, nav)
    case Down =>
      var (entry, nav) := History.Down(c.log, e.nav);
      Editor(if entry.Some? then LoadEntry(entry.value) else Zip([], []), nav)
    case Right => if z.after == [] then e else e.(z := Zip(z.before + [z.after[0]], z.after[1..]))
    case Left =>
      if z.before == [] then e
      else e.(z := Zip(z.before[..|z.before| - 1], [z.before[|z.before| - 1]] + z.after))
    case Rubout => if z.before == [] then e else e.(z := Zip(z.before[..|z.before| - 1], z.after))
    case Tab => e.(z := Load(Completion(c, z).line, Completion(c, z).cursor))
    case Insert(b) => if |Text(z)| < LINE_MAX - 1 then e.(z := Zip(z.before + [b], z.after)) else e
    case _ => e
  }

  function Redrawn(was: Zip, z: Zip): bytes {
    Clear(|Text(was)|) + Text(z)
  }

  function RuboutOut(after: bytes): bytes {
    GO_LEFT + after + [SPACE] + Lefts(|after| + 1)
  }

  function InsertOut(b: byte, after: bytes): bytes {
    [b] + after + Lefts(|after|)
  }

  // What follows the list of candidates: the old line is cleared, then the prompt if
  // something was listed, then the new line.
  function TabOut(was: Zip, printed: bool, z: Zip): bytes {
    Clear(|Text(was)|) + (if printed then PROMPT else []) + Text(z) + Lefts(|z.after|)
  }

  function Listing(c: Context, z: Zip): bytes {
    Complete.Printed(Text(z), |z.before|, c.ls)
  }

  // The bytes a key makes the editor write.
  function Emit(c: Context, e: Editor, key: Key): bytes
    requires History.CursorOk(c.log, e.nav)
  {
    var z := e.z;
    match key
    case Up => if History.Up(c.log, e.nav).0.Some? then Redrawn(z, Apply(c, e, Up).z) else []
    case Down => Redrawn(z, Apply(c, e, Down).z)
    case Right => if z.after == [] then [] else GO_RIGHT
    case Left => if z.before == [] then [] else GO_LEFT
    case Rubout => if z.before == [] then [] else RuboutOut(z.after)
    case Tab => Listing(c, z) + TabOut(z, Completion(c, z).printed, Apply(c, e, Tab).z)
    case Insert(b) => if |Text(z)| < LINE_MAX - 1 then InsertOut(b, z.after) else []
    case Enter => [CR, LF]
    case Interrupt => ['^' as int, 'C' as int, CR, LF]
    case EndOfInput => if Text(z) == [] then ['e' as int, 'x' as int, 'i' as int, 't' as int, CR, LF] else []
    case Ignored => []
  }

  // What the three keys that redraw part of the line do.
  lemma InsertMeans(c: Context, e: Editor, b: byte)
    requires History.CursorOk(c.log, e.nav)
    ensures var fits := |Text(e.z)| < LINE_MAX - 1;
            && Apply(c, e, Insert(b)) == (if fits then e.(z := Zip(e.z.before + [b], e.z.after)) else e)
            && Emit(c, e, Insert(b)) == if fits then InsertOut(b, e.z.after) else []
  {
  }

  lemma RuboutMeans(c: Context, e: Editor)
    requires History.CursorOk(c.log, e.nav)
    ensures var z := e.z;
            && Apply(c, e, Rubout) == (if z.before == [] then e else e.(z := Zip(z.before[..|z.before| - 1], z.after)))
            && Emit(c, e, Rubout) == if z.before == [] then [] else RuboutOut(z.after)
  {
  }

  lemma TabMeans(c: Context, e: Editor)
    requires History.CursorOk(c.log, e.nav)
    ensures var r := Completion(c, e.z);
            var z := Load(r.line, r.cursor);
            Apply(c, e, Tab) == e.(z := z) && Emit(c, e, Tab) == Listing(c, e.z) + TabOut(e.z, r.printed, z)
  {
    hide Complete.Completed, Complete.Printed, Load, TabOut, Listing, Completion;
  }

  datatype Status = Editing | Submitted | Exited

  // Enter and Ctrl-C both submit the line.
  function StatusOf(e: Editor, key: Key): Status {
    match key
    case Enter => Submitted
    case Interrupt => Submitted
    case EndOfInput => if Text(e.z) == [] then Exited else Editing
    case _ => Editing
  }

  lemma ApplyKeepsOk(c: Context, e: Editor, key: Key)
    requires EditorOk(c, e)
    ensures EditorOk(c, Apply(c, e, key))
  {
  }

  // Keys that take each other back.
  lemma RuboutUndoesInsert(c: Context, e: Editor, b: byte)
    requires EditorOk(c, e) && |Text(e.z)| < LINE_MAX - 1
    ensures Apply(c, Apply(c, e, Insert(b)), Rubout) == e
  {
    assert (e.z.before + [b])[..|e.z.before|] == e.z.before;
  }

  lemma MovesUndo(c: Context, e: Editor)
    requires EditorOk(c, e)
    ensures e.z.after != [] ==> Apply(c, Apply(c, e, Right), Left) == e
    ensures e.z.before != [] ==> Apply(c, Apply(c, e, Left), Right) == e
  {
    var z := e.z;
    if z.after != [] {
      assert (z.before + [z.after[0]])[..|z.before|] == z.before;
      assert [z.after[0]] + z.after[1..] == z.after;
    }
    if z.before != [] {
      assert z.before[..|z.before| - 1] + [z.before[|z.before| - 1]] == z.before;
      assert ([z.before[|z.before| - 1]] + z.after)[1..] == z.after;
    }
  }

  datatype Result = Result(e: Editor, out: bytes, status: Status)

  // A chunk of input: the rest of it is dropped once the line is submitted.
  function Process(c: Context, e: Editor, rx: bytes): Result
    requires EditorOk(c, e)
    decreases |rx|
  {
    if rx == [] then Result(e, [], Editing)
    else
      var (key, k) := Decode(rx);
      ApplyKeepsOk(c, e, key);
      var next := Apply(c, e, key);
      if StatusOf(e, key) != Editing then Result(next, Emit(c, e, key), StatusOf(e, key))
      else
        var rest := Process(c, next, rx[k..]);
        rest.(out := Emit(c, e, key) + rest.out)
  }

  // The first byte of a printable text is inserted, then the rest is processed.
  lemma TypeOne(c: Context, e: Editor, text: bytes)
    requires EditorOk(c, e) && text != [] && IsPrintable(text[0])
    ensures var next := Apply(c, e, Insert(text[0]));
            && EditorOk(c, next)
            && Process(c, e, text).status == Process(c, next, text[1..]).status
            && Process(c, e, text).e == Process(c, next, text[1..]).e
  {
    hide Apply, Emit, Decode;
    assert text == [text[0]] + text[1..];
    DecodeKeystroke(Insert(text[0]), text[1..]);
    ApplyKeepsOk(c, e, Insert(text[0]));
  }

  // As much of the text as there is room for.
  function Typed(z: Zip, text: bytes): Zip
    requires |Text(z)| < LINE_MAX
  {
    Zip(z.before + Take(text, LINE_MAX - 1 - |Text(z)|), z.after)
  }

  // Typing in two parts comes to the same.
  lemma TypedTwice(z: Zip, a: bytes, b: bytes)
    requires |Text(z)| < LINE_MAX
    ensures |Text(Typed(z, a))| < LINE_MAX && Typed(Typed(z, a), b) == Typed(z, a + b)
  {
    var room := LINE_MAX - 1 - |Text(z)|;
    assert z.before + Take(a, room) + Take(b, room - |Take(a, room)|) == z.before + Take(a + b, room);
  }

  // Typing printable text puts as much of it as fits in front of the cursor.
  lemma {:induction false} TypingInserts(c: Context, e: Editor, text: bytes)
    requires EditorOk(c, e) && AllPrintable(text)
    ensures Process(c, e, text).status == Editing
    ensures Process(c, e, text).e == e.(z := Typed(e.z, text))
    decreases |text|
  {
    hide Process, Apply, Emit, Typed;
    if text == [] {
      NothingTyped(c, e);
    } else {
      assert IsPrintable(text[0]);
      TypeOne(c, e, text);
      InsertTypes(c, e, text[0]);
      TypingInserts(c, Apply(c, e, Insert(text[0])), text[1..]);
      TypedTwice(e.z, [text[0]], text[1..]);
      assert [text[0]] + text[1..] == text;
    }
  }

  lemma InsertTypes(c: Context, e: Editor, b: byte)
    requires EditorOk(c, e)
    ensures Apply(c, e, Insert(b)) == e.(z := Typed(e.z, [b]))
  {
    Unit(e.z.before);
  }

  lemma NothingTyped(c: Context, e: Editor)
    requires EditorOk(c, e)
    ensures Process(c, e, []) == Result(e, [], Editing) && Typed(e.z, []) == e.z
  {
    Unit(e.z.before);
  }

  // Successive reads, until the line is submitted. A read of nothing is repeated.
  function Session(c: Context, e: Editor, rxs: seq<bytes>): (r: Result)
    requires EditorOk(c, e)
    decreases |rxs|
  {
    if rxs == [] then Result(e, [], Editing)
    else
      var first := Process(c, e, rxs[0]);
      ProcessKeepsOk(c, e, rxs[0]);
      if first.status != Editing then first
      else
        var rest := Session(c, first.e, rxs[1..]);
        rest.(out := first.out + rest.out)
  }

  lemma {:induction false} ProcessKeepsOk(c: Context, e: Editor, rx: bytes)
    requires EditorOk(c, e)
    ensures EditorOk(c, Process(c, e, rx).e)
    decreases |rx|
  {
    hide Decode, Apply, Emit, StatusOf;
    if rx != [] {
      var (key, k) := Decode(rx);
      ApplyKeepsOk(c, e, key);
      if StatusOf(e, key) == Editing {
        ProcessKeepsOk(c, Apply(c, e, key), rx[k..]);
      }
    }
  }

  predicate IsArrow(key: Key) {
    key.Up? || key.Down? || key.Right? || key.Left?
  }

  // A read that starts with a cut escape sequence: the escape is dropped, the rest is text.
  lemma CutEscape(c: Context, e: Editor, text: bytes)
    requires EditorOk(c, e) && AllPrintable(text) && |text| <= 1
    ensures Process(c, e, [ESC] + text).status == Editing
    ensures Process(c, e, [ESC] + text).e == Process(c, e, text).e
  {
    hide Emit;
    var rx := [ESC] + text;
    DropHead([ESC], text);
    assert Decode(rx) == (Ignored, 1);
    TypingInserts(c, e, text);
  }

  lemma SessionTwo(c: Context, e: Editor, a: bytes, b: bytes)
    requires EditorOk(c, e) && Process(c, e, a).status == Editing
    ensures var mid := Process(c, e, a).e;
            && EditorOk(c, mid)
            && Session(c, e, [a, b]).status == Process(c, mid, b).status
            && Session(c, e, [a, b]).e == Process(c, mid, b).e
  {
    hide Process;
    ProcessKeepsOk(c, e, a);
    var mid := Process(c, e, a).e;
    ProcessKeepsOk(c, mid, b);
    var rxs: seq<bytes> := [a, b];
    assert rxs[1..] == [b] && rxs[1..][0] == b;
    assert Session(c, Process(c, mid, b).e, []) == Result(Process(c, mid, b).e, [], Editing);
    var one: seq<bytes> := [b];
    assert one[1..] == [];
    assert Session(c, mid, one).e == Process(c, mid, b).e;
  }

  // An arrow key that two reads cut is not recognized: its other two bytes are inserted.
  lemma CutArrow(c: Context, e: Editor, key: Key, n: nat)
    requires EditorOk(c, e) && IsArrow(key) && (n == 1 || n == 2)
    ensures var r := Session(c, e, [Keystroke(key)[..n], Keystroke(key)[n..]]);
            r.status == Editing && r.e == e.(z := Typed(e.z, Keystroke(key)[1..]))
  {
    var ks := Keystroke(key);
    var head, tail := ks[1..n], ks[n..];
    assert ks[..n] == [ESC] + head && head + tail == ks[1..];
    assert AllPrintable(head) && AllPrintable(tail);
    hide Process, Session, Typed, Keystroke;
    CutEscape(c, e, head);
    TypingInserts(c, e, head);
    SessionTwo(c, e, ks[..n], tail);
    TypingInserts(c, e.(z := Typed(e.z, head)), tail);
    TypedTwice(e.z, head, tail);
  }

  // A submitted line is stored before it is evaluated, so "!!" recalls itself.
  lemma BangBangRecallsItself(log: seq<bytes>)
    ensures History.Expand(History.Pushed(log, [BANG, BANG]), [BANG, BANG]) == [BANG, BANG]
  {
    var line: bytes := [BANG, BANG];
    var pushed := History.Pushed(log, line);
    assert History.Trim(line) == line && Take(line, 127) == line;
    History.ExpandUnfold(pushed, line, line, []);
  }

  // The bytes from the cursor on have moved by one place.
  ghost predicate MovedDown(was: bytes, now: bytes, cursor: nat, len: nat) {
    && 0 < cursor <= len < |was| == |now|
    && (forall k :: 0 <= k < cursor - 1 ==> now[k] == was[k])
    && (forall k :: cursor - 1 <= k < len ==> now[k] == was[k + 1])
  }

  ghost predicate MovedUp(was: bytes, now: bytes, cursor: nat, len: nat) {
    && cursor <= len < |was| == |now|
    && (forall k :: 0 <= k < cursor ==> now[k] == was[k])
    && (forall k :: cursor < k <= len ==> now[k] == was[k - 1])
  }

  lemma MovedDownSlices(was: bytes, now: bytes, cursor: nat, len: nat)
    requires MovedDown(was, now, cursor, len)
    ensures now[..cursor - 1] == was[..cursor - 1] && now[cursor - 1..len - 1] == was[cursor..len]
  {
  }

  lemma MovedUpSlices(was: bytes, now: bytes, cursor: nat, len: nat)
    requires MovedUp(was, now, cursor, len)
    ensures now[..cursor] == was[..cursor] && now[cursor + 1..len + 1] == was[cursor..len]
  {
  }

  // ----- The code -----

  class LineEditor {
    const line: array<byte>
    const hist: History.Ring
    const ls: Dirs.Listing
    var lineLen: nat
    var cursor: nat
    var out: bytes

    ghost predicate Valid()
      reads this, line, hist, hist.slots, hist.lens
    {
      line.Length == LINE_MAX && cursor <= lineLen < LINE_MAX && line != hist.lens && hist.Valid()
    }

    ghost function State(): Editor
      requires Valid()
      reads this, line, hist, hist.slots, hist.lens
    {
      Editor(Zip(line[..cursor], line[cursor..lineLen]), hist.nav)
    }

    ghost function Ctx(): Context
      reads hist
    {
      Context(hist.log, ls)
    }

    // A fresh line: the prompt is written and the history cursor reset.
    constructor (hist: History.Ring, ls: Dirs.Listing)
      requires hist.Valid()
      modifies hist`nav
      ensures Valid() && State() == Editor(Zip([], []), -1) && out == PROMPT
      ensures this.hist == hist && this.ls == ls && fresh(line)
    {
      line := new byte[LINE_MAX](_ => 0);
      this.hist, this.ls := hist, ls;
      lineLen, cursor, out := 0, 0, PROMPT;
      new;
      hist.NavReset();
    }

    method Write(text: bytes)
      modifies this`out
      ensures out == old(out) + text
    {
      out := out + text;
    }

    method WriteLefts(k: nat)
      modifies this`out
      ensures out == old(out) + Lefts(k)
    {
      var n := k;
      while n > 0
        invariant 0 <= n <= k
        invariant out + Lefts(n) == old(out) + Lefts(k)
      {
        Assoc(out, GO_LEFT, Lefts(n - 1));
        Write(GO_LEFT);
        n := n - 1;
      }
      assert out + [] == out;
    }

    method ClearLine()
      requires Valid()
      modifies this`out
      ensures out == old(out) + Clear(lineLen)
    {
      Write([CR]);
      var n := 0;
      while n < lineLen
        invariant 0 <= n <= lineLen && out == old(out) + [CR] + Blanks(n)
      {
        assert Blanks(n + 1) == Blanks(n) + [SPACE];
        assert old(out) + [CR] + Blanks(n) + [SPACE] == old(out) + [CR] + (Blanks(n) + [SPACE]);
        Write([SPACE]);
        n := n + 1;
      }
      Write([CR]);
      assert old(out) + [CR] + Blanks(lineLen) + [CR] == old(out) + ([CR] + Blanks(lineLen) + [CR]);
    }

    // Replaces the whole line.
    method Replace(text: bytes, at: nat)
      requires Valid()
      modifies this`lineLen, this`cursor, line
      ensures Valid() && State() == Editor(Load(text, at), old(hist.nav))
    {
      var cn := Min(|text|, LINE_MAX - 1);
      forall k | 0 <= k < cn {
        line[k] := text[k];
      }
      assert line[..cn] == text[..cn];
      lineLen := cn;
      cursor := Min(at, cn);
      assert line[..cursor] == text[..cn][..cursor] && line[cursor..cn] == text[..cn][cursor..];
    }

    method Recall(entry: bytes)
      requires Valid()
      modifies this`lineLen, this`cursor, this`out, line
      ensures Valid() && State() == Editor(LoadEntry(entry), old(hist.nav))
      ensures out == old(out) + Redrawn(old(State()).z, LoadEntry(entry))
    {
      ghost var was := State().z;
      assert |Text(was)| == lineLen;
      ClearLine();
      Replace(entry, |entry|);
      LoadWholeEntry(entry);
      assert line[..lineLen] == Text(State().z);
      Write(line[..lineLen]);
    }

    method KeyUp()
      requires Valid()
      modifies this`lineLen, this`cursor, this`out, line, hist`nav
      ensures Valid() && hist.log == old(hist.log)
      ensures State() == Apply(old(Ctx()), old(State()), Up)
      ensures out == old(out) + Emit(old(Ctx()), old(State()), Up)
    {
      var entry := hist.NavUp();
      if entry.Some? {
        Recall(entry.value);
      }
      assert entry.None? ==> out + [] == out;
    }

    method KeyDown()
      requires Valid()
      modifies this`lineLen, this`cursor, this`out, line, hist`nav
      ensures Valid() && hist.log == old(hist.log)
      ensures State() == Apply(old(Ctx()), old(State()), Down)
      ensures out == old(out) + Emit(old(Ctx()), old(State()), Down)
    {
      ghost var was := State().z;
      assert |Text(was)| == lineLen;
      var entry := hist.NavDown();
      if entry.Some? {
        Recall(entry.value);
      } else {
        ClearLine();
        lineLen, cursor := 0, 0;
        assert Clear(|Text(was)|) + [] == Clear(|Text(was)|);
      }
    }

    method KeyRight()
      requires Valid()
      modifies this`cursor, this`out
      ensures Valid() && State() == Apply(old(Ctx()), old(State()), Right)
      ensures out == old(out) + Emit(old(Ctx()), old(State()), Right)
    {
      assert cursor == lineLen ==> out + [] == out;
      if cursor < lineLen {
        cursor := cursor + 1;
        assert line[..cursor] == line[..cursor - 1] + [line[cursor - 1]];
        assert line[cursor - 1..lineLen][1..] == line[cursor..lineLen];
        Write(GO_RIGHT);
      }
    }

    method KeyLeft()
      requires Valid()
      modifies this`cursor, this`out
      ensures Valid() && State() == Apply(old(Ctx()), old(State()), Left)
      ensures out == old(out) + Emit(old(Ctx()), old(State()), Left)
    {
      assert cursor == 0 ==> out + [] == out;
      if cursor > 0 {
        cursor := cursor - 1;
        assert line[..cursor + 1][..cursor] == line[..cursor];
        assert line[cursor..lineLen] == [line[cursor]] + line[cursor + 1..lineLen];
        Write(GO_LEFT);
      }
    }

    // Shifts the bytes from the cursor on down by one, over the byte in front of it.
    method ShiftDown()
      requires 0 < cursor <= lineLen < LINE_MAX == line.Length
      modifies line
      ensures MovedDown(old(line[..]), line[..], cursor, lineLen)
    {
      ghost var was := line[..];
      var j := cursor - 1;
      while j < lineLen
        invariant cursor - 1 <= j <= lineLen
        invariant forall k :: 0 <= k < cursor - 1 ==> line[k] == was[k]
        invariant forall k :: cursor - 1 <= k < j ==> line[k] == was[k + 1]
        invariant forall k :: j <= k < line.Length ==> line[k] == was[k]
      {
        line[j] := line[j + 1];
        j := j + 1;
      }
    }

    // Shifts the bytes from the cursor on up by one, starting at the end.
    method ShiftUp()
      requires cursor <= lineLen < LINE_MAX - 1 < line.Length
      modifies line
      ensures MovedUp(old(line[..]), line[..], cursor, lineLen)
    {
      ghost var was := line[..];
      var j := lineLen;
      while j > cursor
        invariant cursor <= j <= lineLen
        invariant forall k :: 0 <= k <= j ==> line[k] == was[k]
        invariant forall k :: j < k <= lineLen ==> line[k] == was[k - 1]
      {
        line[j] := line[j - 1];
        j := j - 1;
      }
    }

    method KeyRubout()
      requires Valid()
      modifies this`lineLen, this`cursor, this`out, line
      ensures Valid() && State() == Apply(old(Ctx()), old(State()), Rubout)
      ensures out == old(out) + Emit(old(Ctx()), old(State()), Rubout)
    {
      hide Lefts, Apply, Emit, InsertOut, RuboutOut;
      RuboutMeans(Ctx(), State());
      assert cursor == 0 ==> out + [] == out;
      if cursor > 0 {
        ghost var front, after := line[..cursor], line[cursor..lineLen];
        ghost var was := line[..];
        ShiftDown();
        MovedDownSlices(was, line[..], cursor, lineLen);
        lineLen := lineLen - 1;
        cursor := cursor - 1;
        assert line[..cursor] == line[..][..cursor] == front[..cursor];
        assert line[cursor..lineLen] == line[..][cursor..lineLen];
        assert line[cursor..lineLen] == after;
        RedrawRubout();
      }
    }

    // The bytes behind the cursor again, one column to the left, and a blank.
    method RedrawRubout()
      requires cursor <= lineLen <= line.Length
      modifies this`out
      ensures out == old(out) + RuboutOut(line[cursor..lineLen])
    {
      hide Lefts;
      ghost var after, before := line[cursor..lineLen], out;
      Write(GO_LEFT);
      Write(line[cursor..lineLen]);
      Write([SPACE]);
      WriteLefts(lineLen - cursor + 1);
      assert before + GO_LEFT + after + [SPACE] + Lefts(|after| + 1) == before + RuboutOut(after);
    }

    // Makes room at the cursor and stores the byte there.
    method StoreByte(b: byte)
      requires cursor <= lineLen < LINE_MAX - 1 < line.Length
      modifies line, this`lineLen
      ensures lineLen == old(lineLen) + 1
      ensures line[..cursor] == old(line[..cursor]) && line[cursor] == b
      ensures line[cursor + 1..lineLen] == old(line[cursor..lineLen])
    {
      ghost var was := line[..];
      ShiftUp();
      ghost var now := line[..];
      MovedUpSlices(was, now, cursor, lineLen);
      line[cursor] := b;
      lineLen := lineLen + 1;
      assert line[..cursor] == now[..cursor];
      assert line[cursor + 1..lineLen] == now[cursor + 1..lineLen];
    }

    method KeyInsert(b: byte)
      requires Valid()
      modifies this`lineLen, this`cursor, this`out, line
      ensures Valid() && State() == Apply(old(Ctx()), old(State()), Insert(b))
      ensures out == old(out) + Emit(old(Ctx()), old(State()), Insert(b))
    {
      hide Lefts, Apply, Emit, InsertOut, RuboutOut;
      InsertMeans(Ctx(), State(), b);
      Unit(out);
      assert |Text(State().z)| == lineLen;
      if lineLen < LINE_MAX - 1 {
        StoreByte(b);
        RedrawInsert(b);
        cursor := cursor + 1;
        assert line[..cursor] == line[..cursor - 1] + [b];
      }
    }

    // The new byte and the bytes behind it, and back to the new cursor position.
    method RedrawInsert(b: byte)
      requires cursor < lineLen <= line.Length && line[cursor] == b
      modifies this`out
      ensures out == old(out) + InsertOut(b, line[cursor + 1..lineLen])
    {
      hide Lefts;
      ghost var after, before := line[cursor + 1..lineLen], out;
      assert line[cursor..lineLen] == [b] + after;
      Write(line[cursor..lineLen]);
      WriteLefts(lineLen - (cursor + 1));
      Assoc(before, [b] + after, Lefts(|after|));
    }

    method KeyTab()
      requires Valid()
      modifies this`lineLen, this`cursor, this`out, line
      ensures Valid() && State() == Apply(old(Ctx()), old(State()), Tab)
      ensures out == old(out) + Emit(old(Ctx()), old(State()), Tab)
    {
      hide Complete.Completed, Complete.Printed, Clear, Lefts, Load, Apply, Emit, TabOut;
      TabMeans(Ctx(), State());
      ghost var was, before := State().z, out;
      assert line[..lineLen] == Text(was);
      var result, printed := Complete.TabComplete(line[..lineLen], cursor, ls);
      Write(printed);
      ClearLine();
      Replace(result.line, result.cursor);
      ghost var z := State().z;
      assert line[..lineLen] == Text(z);
      WriteLine(result.printed);
      TabOutJoins(before, printed, was, result.printed, z);
    }

    // The line again, behind a prompt if candidates were listed, and back to the cursor.
    method WriteLine(prompt: bool)
      requires cursor <= lineLen <= line.Length
      modifies this`out
      ensures out == old(out) + (if prompt then PROMPT else []) + line[..lineLen] + Lefts(lineLen - cursor)
    {
      hide Lefts;
      Unit(out);
      if prompt {
        Write(PROMPT);
      }
      Write(line[..lineLen]);
      WriteLefts(lineLen - cursor);
    }

    method KeyPress(key: Key) returns (status: Status)
      requires Valid()
      modifies this`lineLen, this`cursor, this`out, line, hist`nav
      ensures Valid() && hist.log == old(hist.log)
      ensures State() == Apply(old(Ctx()), old(State()), key)
      ensures out == old(out) + Emit(old(Ctx()), old(State()), key)
      ensures status == StatusOf(old(State()), key)
    {
      hide Redrawn, Load, Completion, Lefts;
      status := Editing;
      assert |Text(State().z)| == lineLen;
      assert out + [] == out;
      match key
      case Up => KeyUp();
      case Down => KeyDown();
      case Right => KeyRight();
      case Left => KeyLeft();
      case Rubout => KeyRubout();
      case Tab => KeyTab();
      case Insert(b) => KeyInsert(b);
      case Enter => Write([CR, LF]); status := Submitted;
      case Interrupt => Write(['^' as int, 'C' as int, CR, LF]); status := Submitted;
      case EndOfInput =>
        if lineLen == 0 {
          Write(['e' as int, 'x' as int, 'i' as int, 't' as int, CR, LF]);
          status := Exited;
        }
      case Ignored =>
    }

    // What happens to the line once editing ends: a non-empty one goes into the history.
    method Submit()
      requires Valid() && hist.count + 1 < Io.U64_LIMIT
      modifies line, hist`count, hist`log, hist.slots, hist.lens
      ensures Valid() && State().z == old(State().z)
      ensures hist.log ==
              if Text(State().z) == [] then old(hist.log) else History.Pushed(old(hist.log), Text(State().z))
    {
      ghost var z := State().z;
      line[lineLen] := NUL;
      assert line[..lineLen] == Text(z);
      if lineLen == 0 {
        return;
      }
      hist.Push(line[..lineLen]);
    }

    // One chunk of input bytes.
    method ProcessChunk(rx: bytes) returns (status: Status)
      requires Valid()
      modifies this`lineLen, this`cursor, this`out, line, hist`nav
      ensures Valid() && hist.log == old(hist.log)
      ensures EditorOk(old(Ctx()), old(State()))
      ensures var r := Process(old(Ctx()), old(State()), rx);
              State() == r.e && out == old(out) + r.out && status == r.status
    {
      hide Decode, Apply, Emit, StatusOf;
      assert |Text(State().z)| == lineLen;
      ghost var c := Ctx();
      var i := 0;
      assert rx[0..] == rx;
      ghost var all := Process(c, State(), rx);
      while i < |rx|
        invariant 0 <= i <= |rx| && Valid() && Ctx() == c && EditorOk(c, State())
        invariant Prefixed(out, Process(c, State(), rx[i..])) == Prefixed(old(out), all)
      {
        var (key, k) := Decode(rx[i..]);
        assert rx[i..][k..] == rx[i + k..];
        ProcessStep(c, State(), rx[i..], out);
        ApplyKeepsOk(c, State(), key);
        status := KeyPress(key);
        if status != Editing {
          return;
        }
        i := i + k;
      }
      status := Editing;
      assert out + [] == out;
    }

    // The loop over reads, each of at most 16 bytes; a read that fails ends the shell.
    method EditLine(rxs: seq<bytes>, fails: bool) returns (status: Status)
      requires Valid() && forall k :: 0 <= k < |rxs| ==> |rxs[k]| <= 16
      modifies this`lineLen, this`cursor, this`out, line, hist`nav
      ensures Valid() && hist.log == old(hist.log)
      ensures EditorOk(old(Ctx()), old(State()))
      ensures var r := Session(old(Ctx()), old(State()), rxs);
              && State() == r.e && out == old(out) + r.out
              && status == if fails && r.status == Editing then Exited else r.status
    {
      hide Process;
      assert |Text(State().z)| == lineLen;
      ghost var c := Ctx();
      ghost var all := Session(c, State(), rxs);
      var n := 0;
      status := Editing;
      assert rxs[0..] == rxs;
      while n < |rxs|
        invariant 0 <= n <= |rxs| && Valid() && Ctx() == c && EditorOk(c, State())
        invariant Prefixed(out, Session(c, State(), rxs[n..])) == Prefixed(old(out), all)
        invariant status == Editing
      {
        assert rxs[n..][1..] == rxs[n + 1..];
        SessionStep(c, State(), rxs[n..], out);
        status := ProcessChunk(rxs[n]);
        if status != Editing {
          return;
        }
        n := n + 1;
      }
      assert out + [] == out;
      if fails {
        status := Exited;
      }
    }
  }

  lemma SessionStep(c: Context, e: Editor, rxs: seq<bytes>, out: bytes)
    requires EditorOk(c, e) && rxs != []
    ensures var first := Process(c, e, rxs[0]);
            EditorOk(c, first.e) &&
            Prefixed(out, Session(c, e, rxs)) ==
            if first.status != Editing then Prefixed(out, first)
            else Prefixed(out + first.out, Session(c, first.e, rxs[1..]))
  {
    hide Process;
    ProcessKeepsOk(c, e, rxs[0]);
    var first := Process(c, e, rxs[0]);
    if first.status == Editing {
      Assoc(out, first.out, Session(c, first.e, rxs[1..]).out);
    }
  }

  lemma TabOutJoins(before: bytes, list: bytes, was: Zip, printed: bool, z: Zip)
    ensures before + (list + TabOut(was, printed, z)) ==
            before + list + Clear(|Text(was)|) + (if printed then PROMPT else []) + Text(z) + Lefts(|z.after|)
  {
    hide Clear, Lefts, Text;
  }

  function Prefixed(out: bytes, r: Result): Result {
    r.(out := out + r.out)
  }

  lemma ProcessStep(c: Context, e: Editor, rx: bytes, out: bytes)
    requires EditorOk(c, e) && rx != []
    ensures var (key, k) := Decode(rx);
            var next := Apply(c, e, key);
            EditorOk(c, next) &&
            Prefixed(out, Process(c, e, rx)) ==
            if StatusOf(e, key) != Editing then Result(next, out + Emit(c, e, key), StatusOf(e, key))
            else Prefixed(out + Emit(c, e, key), Process(c, next, rx[k..]))
  {
    hide Decode, Apply, Emit, StatusOf;
    var (key, k) := Decode(rx);
    ApplyKeepsOk(c, e, key);
    var next := Apply(c, e, key);
    if StatusOf(e, key) == Editing {
      Assoc(out, Emit(c, e, key), Process(c, next, rx[k..]).out);
    }
  }
}
