// The editor's redraws keep the terminal in step with its buffer.
module Redraw {
  import opened Bytes
  import opened Terminal
  import opened Raw
  import History
  import Complete
  import Dirs
  import Keys

  // The line starts at column base, and the cursor is where the editor believes it is.
  ghost predicate InStep(s: Screen, base: nat, z: Zip) {
    && s.mode == Normal && s.col == base + |z.before|
    && forall i: nat :: base <= i < base + |Text(z)| ==> Cell(s.row, i) == Text(z)[i - base]
  }

  // The row shows the prompt and the line, and is blank behind them.
  ghost predicate Exact(s: Screen, z: Zip) {
    && s.mode == Normal && s.col == |PROMPT| + |z.before|
    && forall i: nat ::
         Cell(s.row, i) == if i < |PROMPT| then PROMPT[i]
                           else if i < |PROMPT| + |Text(z)| then Text(z)[i - |PROMPT|]
                           else SPACE
  }

  lemma ExactInStep(s: Screen, z: Zip)
    requires Exact(s, z)
    ensures InStep(s, |PROMPT|, z)
  {
  }

  ghost predicate Printables(texts: seq<bytes>) {
    forall k :: 0 <= k < |texts| ==> AllPrintable(texts[k])
  }

  // History entries and directory entries hold printable bytes only.
  ghost predicate ContextPrintable(c: Context) {
    Printables(c.log) && forall dir :: Printables(Dirs.Entries(c.ls, dir))
  }

  // ----- Inserting and deleting -----

  lemma FeedInsert(s: Screen, b: byte, after: bytes)
    requires s.mode == Normal && IsPrintable(b) && AllPrintable(after)
    ensures var t := Feed(s, InsertOut(b, after));
            t.mode == Normal && t.col == s.col + 1 && Overwritten(t.row, s.row, s.col, [b] + after)
  {
    var text := [b] + after;
    FeedConcat(s, text, Lefts(|after|));
    FeedText(s, text);
    FeedLefts(Feed(s, text), |after|);
  }

  lemma FeedRubout(s: Screen, after: bytes)
    requires s.mode == Normal && s.col > 0 && AllPrintable(after)
    ensures var t := Feed(s, RuboutOut(after));
            t.mode == Normal && t.col == s.col - 1 && Overwritten(t.row, s.row, s.col - 1, after + [SPACE])
  {
    hide Feed, Lefts, Overwritten;
    var text := after + [SPACE];
    var at := s.(col := s.col - 1);
    assert RuboutOut(after) == GO_LEFT + (text + Lefts(|after| + 1));
    FeedConcat(s, GO_LEFT, text + Lefts(|after| + 1));
    FeedArrow(s);
    FeedConcat(at, text, Lefts(|after| + 1));
    FeedText(at, text);
    FeedLefts(Feed(at, text), |after| + 1);
  }

  // Keys that change the line near the cursor or move the cursor.
  predicate IsLocal(key: Key) {
    key.Right? || key.Left? || key.Rubout? || key.Insert? || key.EndOfInput? || key.Ignored?
  }

  predicate KeyPrintable(key: Key) {
    key.Insert? ==> IsPrintable(key.b)
  }

  lemma DecodePrintable(rx: bytes)
    requires rx != []
    ensures KeyPrintable(Decode(rx).0)
  {
  }

  // What a local key does to the screen: it may rewrite a stretch of the row that starts at
  // the cursor or one column before it.
  lemma LocalScreen(c: Context, e: Editor, key: Key, s: Screen)
    requires EditorOk(c, e) && IsLocal(key) && KeyPrintable(key) && StatusOf(e, key) == Editing
    requires s.mode == Normal && s.col >= |e.z.before| && AllPrintable(Text(e.z))
    ensures var z := e.z;
            var z' := Apply(c, e, key).z;
            var t := Feed(s, Emit(c, e, key));
            && t.mode == Normal && t.col - |z'.before| == s.col - |z.before|
            && (if z' != z && key.Insert? then Overwritten(t.row, s.row, s.col, [key.b] + z.after)
                else if z' != z && key.Rubout? then Overwritten(t.row, s.row, s.col - 1, z.after + [SPACE])
                else t.row == s.row)
  {
    var z := e.z;
    assert forall k :: 0 <= k < |z.after| ==> z.after[k] == Text(z)[|z.before| + k];
    assert Feed(s, []) == s;
    FeedArrow(s);
    if key.Rubout? && z.before != [] {
      FeedRubout(s, z.after);
    }
    if key.Insert? {
      FeedInsert(s, key.b, z.after);
    }
  }

  lemma PrintableParts(a: bytes, b: bytes)
    ensures AllPrintable(a + b) <==> AllPrintable(a) && AllPrintable(b)
  {
    assert forall k :: 0 <= k < |a| ==> (a + b)[k] == a[k];
    assert forall k :: 0 <= k < |b| ==> (a + b)[|a| + k] == b[k];
  }

  lemma LocalPrintable(c: Context, e: Editor, key: Key)
    requires EditorOk(c, e) && IsLocal(key) && KeyPrintable(key) && AllPrintable(Text(e.z))
    ensures AllPrintable(Text(Apply(c, e, key).z))
  {
    var z, z' := e.z, Apply(c, e, key).z;
    PrintableParts(z.before, z.after);
    PrintableParts(z'.before, z'.after);
    if key.Left? && z' != z {
      assert Text(z') == Text(z);
    }
    if key.Right? && z' != z {
      assert Text(z') == Text(z);
    }
  }

  lemma StepInsert(s: Screen, t: Screen, base: nat, z: Zip, b: byte)
    requires InStep(s, base, z) && t.mode == Normal && t.col == s.col + 1
    requires Overwritten(t.row, s.row, s.col, [b] + z.after)
    ensures InStep(t, base, Zip(z.before + [b], z.after))
  {
  }

  lemma StepRubout(s: Screen, t: Screen, base: nat, z: Zip)
    requires z.before != [] && InStep(s, base, z) && t.mode == Normal && t.col == s.col - 1
    requires Overwritten(t.row, s.row, s.col - 1, z.after + [SPACE])
    ensures InStep(t, base, Zip(z.before[..|z.before| - 1], z.after))
  {
  }

  lemma StepMove(s: Screen, t: Screen, base: nat, z: Zip, z': Zip)
    requires InStep(s, base, z) && t.mode == Normal && t.row == s.row
    requires Text(z') == Text(z) && t.col - |z'.before| == s.col - |z.before|
    ensures InStep(t, base, z')
  {
  }

  lemma LocalInStep(c: Context, e: Editor, key: Key, s: Screen, base: nat)
    requires EditorOk(c, e) && IsLocal(key) && KeyPrintable(key) && StatusOf(e, key) == Editing
    requires InStep(s, base, e.z) && AllPrintable(Text(e.z))
    ensures InStep(Feed(s, Emit(c, e, key)), base, Apply(c, e, key).z)
  {
    LocalScreen(c, e, key, s);
    hide Feed, Emit, InStep, Overwritten;
    var z, z' := e.z, Apply(c, e, key).z;
    var t := Feed(s, Emit(c, e, key));
    if key.Insert? && z' != z {
      StepInsert(s, t, base, z, key.b);
    } else if key.Rubout? && z' != z {
      StepRubout(s, t, base, z);
    } else {
      assert Text(z') == Text(z);
      StepMove(s, t, base, z, z');
    }
  }

  lemma ExactInsert(s: Screen, t: Screen, z: Zip, b: byte)
    requires Exact(s, z) && t.mode == Normal && t.col == s.col + 1
    requires Overwritten(t.row, s.row, s.col, [b] + z.after)
    ensures Exact(t, Zip(z.before + [b], z.after))
  {
  }

  lemma ExactRubout(s: Screen, t: Screen, z: Zip)
    requires z.before != [] && Exact(s, z) && t.mode == Normal && t.col == s.col - 1
    requires Overwritten(t.row, s.row, s.col - 1, z.after + [SPACE])
    ensures Exact(t, Zip(z.before[..|z.before| - 1], z.after))
  {
  }

  lemma ExactMove(s: Screen, t: Screen, z: Zip, z': Zip)
    requires Exact(s, z) && t.mode == Normal && t.row == s.row
    requires Text(z') == Text(z) && t.col - |z'.before| == s.col - |z.before|
    ensures Exact(t, z')
  {
  }

  lemma LocalExact(c: Context, e: Editor, key: Key, s: Screen)
    requires EditorOk(c, e) && IsLocal(key) && KeyPrintable(key) && StatusOf(e, key) == Editing
    requires Exact(s, e.z) && AllPrintable(Text(e.z))
    ensures Exact(Feed(s, Emit(c, e, key)), Apply(c, e, key).z)
  {
    ExactInStep(s, e.z);
    LocalScreen(c, e, key, s);
    hide Feed, Emit, Exact, Overwritten;
    var z, z' := e.z, Apply(c, e, key).z;
    var t := Feed(s, Emit(c, e, key));
    if key.Insert? && z' != z {
      ExactInsert(s, t, z, key.b);
    } else if key.Rubout? && z' != z {
      ExactRubout(s, t, z);
    } else {
      assert Text(z') == Text(z);
      ExactMove(s, t, z, z');
    }
  }

  // ----- Recalling -----

  // The exact row after a recall: the new text from column 0 on, blanks up to the length of
  // the old text, and whatever was on the row behind that.
  lemma RecallScreen(s: Screen, was: Zip, z: Zip)
    requires s.mode == Normal && AllPrintable(Text(z))
    ensures var t := Feed(s, Redrawn(was, z));
            && t.mode == Normal && t.col == |Text(z)|
            && forall i: nat ::
                 Cell(t.row, i) == if i < |Text(z)| then Text(z)[i]
                                   else if i < |Text(was)| then SPACE
                                   else Cell(s.row, i)
  {
    hide Feed, Clear;
    FeedConcat(s, Clear(|Text(was)|), Text(z));
    FeedClear(s, |Text(was)|);
    FeedText(Feed(s, Clear(|Text(was)|)), Text(z));
  }

  // ----- Completing -----

  // Whatever state the list of candidates left the terminal in.
  lemma TabScreen(s: Screen, was: Zip, printed: bool, z: Zip)
    requires AllPrintable(Text(z))
    ensures var t := Feed(s, TabOut(was, printed, z));
            var base := if printed then |PROMPT| else 0;
            && InStep(t, base, z)
            && (printed && s.mode == Normal && s.row == [] ==> Exact(t, z))
  {
    hide Feed, Clear, Lefts;
    var head := if printed then PROMPT else [];
    var n := |Text(was)|;
    var s1 := Feed(s, Clear(n));
    var s2 := Feed(s1, head);
    var s3 := Feed(s2, Text(z));
    FeedConcat(s, Clear(n) + head + Text(z), Lefts(|z.after|));
    FeedConcat(s, Clear(n) + head, Text(z));
    FeedConcat(s, Clear(n), head);
    FeedClearAny(s, n);
    if s.mode == Normal {
      FeedClear(s, n);
    }
    FeedText(s1, head);
    FeedText(s2, Text(z));
    FeedLefts(s3, |z.after|);
  }

  lemma {:induction false} FeedListed(s: Screen, cands: seq<bytes>)
    requires s.mode == Normal && Printables(cands)
    ensures Feed(s, Complete.Listed(cands)).mode == Normal
    decreases |cands|
  {
    if cands != [] {
      hide Feed;
      var gap: bytes := [SPACE, SPACE];
      assert AllPrintable(cands[0]) && AllPrintable(gap);
      FeedConcat(s, cands[0] + gap, Complete.Listed(cands[1..]));
      PrintableParts(cands[0], gap);
      FeedText(s, cands[0] + gap);
      FeedListed(Feed(s, cands[0] + gap), cands[1..]);
    } else {
      assert Feed(s, []) == s;
    }
  }

  // The list of candidates ends on a fresh row.
  lemma FeedListing(s: Screen, cands: seq<bytes>)
    requires s.mode == Normal && Printables(cands)
    ensures Feed(s, [LF] + Complete.Listed(cands) + [LF]) == Screen([], 0, Normal)
  {
    hide Feed;
    var fresh' := Screen([], 0, Normal);
    FeedConcat(s, [LF] + Complete.Listed(cands), [LF]);
    FeedConcat(s, [LF], Complete.Listed(cands));
    FeedOne(s, LF);
    FeedListed(fresh', cands);
    FeedOne(Feed(fresh', Complete.Listed(cands)), LF);
  }

  lemma PrefixedPrintable(names: seq<bytes>, prefix: bytes)
    requires Printables(names)
    ensures Printables(Complete.WithPrefix(names, prefix))
  {
    var found := Complete.WithPrefix(names, prefix);
    forall k | 0 <= k < |found| ensures AllPrintable(found[k]) {
      var i :| 0 <= i < |names| && names[i] == found[k];
    }
  }

  lemma BuiltinsPrintable()
    ensures Printables(Complete.Builtins())
  {
    hide Complete.BuiltinNames, Complete.Builtins;
    forall k | 0 <= k < |Complete.Builtins()| ensures AllPrintable(Complete.Builtins()[k]) {
      Complete.NamesAreLetters(k);
      var s := Complete.BuiltinNames()[k];
      assert forall j :: 0 <= j < |s| ==> s[j] in s && Ascii(s)[j] == s[j] as int % 256;
    }
  }

  lemma CandidatesPrintable(c: Context, z: Zip)
    requires ContextPrintable(c)
    ensures Printables(Complete.Candidates(Text(z), |z.before|, c.ls))
  {
    hide Complete.TokStart, Complete.Builtins, Complete.WithPrefix, Dirs.Entries, Dirs.DirPart, Dirs.NamePart;
    var line, cursor := Text(z), |z.before|;
    var tok := line[Complete.TokStart(line, cursor)..cursor];
    BuiltinsPrintable();
    PrefixedPrintable(Complete.Builtins(), tok);
    PrefixedPrintable(Dirs.Entries(c.ls, Dirs.DirPart(tok)), Dirs.NamePart(tok));
  }

  lemma CompletionPrintable(c: Context, z: Zip)
    requires ContextPrintable(c) && AllPrintable(Text(z))
    ensures AllPrintable(Completion(c, z).line)
    ensures Completion(c, z).printed ==>
              Listing(c, z) == [LF] + Complete.Listed(Complete.Candidates(Text(z), |z.before|, c.ls)) + [LF]
    ensures !Completion(c, z).printed ==> Listing(c, z) == []
  {
    hide Complete.TokStart, Complete.Candidates, Complete.Listed, Complete.CommonLen;
    var line, cursor := Text(z), |z.before|;
    var start := Complete.TokStart(line, cursor);
    var tok := line[start..cursor];
    var cands := Complete.Candidates(line, cursor, c.ls);
    CandidatesPrintable(c, z);
    assert cands != [] ==> AllPrintable(cands[0]);
    var ext := Complete.Extension(tok, cands);
    assert AllPrintable(ext);
    PrintableParts(line[..start] + ext, line[cursor..]);
    PrintableParts(line[..start], ext);
  }

  lemma LoadText(text: bytes, cursor: nat)
    ensures Text(Load(text, cursor)) == Take(text, LINE_MAX - 1)
  {
  }

  lemma TabInStep(c: Context, e: Editor, s: Screen)
    requires EditorOk(c, e) && AllPrintable(Text(Apply(c, e, Tab).z))
    ensures InStep(Feed(s, Emit(c, e, Tab)), if Completion(c, e.z).printed then |PROMPT| else 0, Apply(c, e, Tab).z)
  {
    hide Feed, TabOut, Load, Completion, Listing, InStep, Exact;
    var r := Completion(c, e.z);
    var z' := Apply(c, e, Tab).z;
    FeedConcat(s, Listing(c, e.z), TabOut(e.z, r.printed, z'));
    TabScreen(Feed(s, Listing(c, e.z)), e.z, r.printed, z');
  }

  // With printable candidates the row is exact behind their list.
  lemma TabExact(c: Context, e: Editor, s: Screen)
    requires EditorOk(c, e) && ContextPrintable(c) && s.mode == Normal && AllPrintable(Text(e.z))
    ensures AllPrintable(Text(Apply(c, e, Tab).z))
    ensures Completion(c, e.z).printed ==> Exact(Feed(s, Emit(c, e, Tab)), Apply(c, e, Tab).z)
  {
    hide Feed, TabOut, Load, Completion, Listing, InStep, Exact;
    var r := Completion(c, e.z);
    var z' := Apply(c, e, Tab).z;
    CompletionPrintable(c, e.z);
    LoadText(r.line, r.cursor);
    if r.printed {
      FeedConcat(s, Listing(c, e.z), TabOut(e.z, r.printed, z'));
      CandidatesPrintable(c, e.z);
      FeedListing(s, Complete.Candidates(Text(e.z), |e.z.before|, c.ls));
      TabScreen(Feed(s, Listing(c, e.z)), e.z, r.printed, z');
    }
  }

  lemma FeedNothing(s: Screen)
    ensures Feed(s, []) == s
  {
  }

  // ----- Any key, and whole chunks -----

  // Where the line starts after a key: recalling and completing move it to column 0, and a
  // completion that lists candidates back behind a new prompt.
  function BaseAfter(c: Context, e: Editor, key: Key, base: nat): nat
    requires History.CursorOk(c.log, e.nav)
  {
    match key
    case Up => if History.Up(c.log, e.nav).0.Some? then 0 else base
    case Down => 0
    case Tab => if Completion(c, e.z).printed then |PROMPT| else 0
    case _ => base
  }

  lemma ShownPrintable(c: Context, cursor: int)
    requires ContextPrintable(c) && cursor < |c.log|
    ensures History.Shown(c.log, cursor).Some? ==> AllPrintable(LoadEntry(History.Shown(c.log, cursor).value).before)
  {
  }

  // A key that gives a printable line keeps the screen in step.
  lemma KeyKeepsStep(c: Context, e: Editor, key: Key, s: Screen, base: nat)
    requires EditorOk(c, e) && KeyPrintable(key) && StatusOf(e, key) == Editing
    requires InStep(s, base, e.z) && AllPrintable(Text(e.z)) && AllPrintable(Text(Apply(c, e, key).z))
    ensures InStep(Feed(s, Emit(c, e, key)), BaseAfter(c, e, key, base), Apply(c, e, key).z)
  {
    hide Feed, Redrawn;
    match key
    case Up =>
      if History.Up(c.log, e.nav).0.Some? {
        RecallScreen(s, e.z, Apply(c, e, key).z);
      } else {
        FeedNothing(s);
      }
    case Down => RecallScreen(s, e.z, Apply(c, e, key).z);
    case Tab => TabInStep(c, e, s);
    case _ => LocalInStep(c, e, key, s, base);
  }

  lemma KeyKeepsPrintable(c: Context, e: Editor, key: Key)
    requires EditorOk(c, e) && ContextPrintable(c) && KeyPrintable(key) && AllPrintable(Text(e.z))
    ensures AllPrintable(Text(Apply(c, e, key).z))
  {
    match key
    case Up =>
      if History.Up(c.log, e.nav).0.Some? {
        ShownPrintable(c, e.nav + 1);
      }
    case Down =>
      if History.Down(c.log, e.nav).0.Some? {
        ShownPrintable(c, e.nav - 1);
      }
    case Tab =>
      CompletionPrintable(c, e.z);
      LoadText(Completion(c, e.z).line, Completion(c, e.z).cursor);
    case Enter =>
    case Interrupt =>
    case _ => LocalPrintable(c, e, key);
  }

  // From a row that is exactly prompt and line, a key leaves such a row exactly when it does
  // not move the line to column 0: a recalled line, and one completed without a list, is
  // written over the prompt.
  lemma ExactIffKeptInPlace(c: Context, e: Editor, key: Key, s: Screen)
    requires EditorOk(c, e) && ContextPrintable(c) && KeyPrintable(key) && StatusOf(e, key) == Editing
    requires Exact(s, e.z) && AllPrintable(Text(e.z))
    ensures Exact(Feed(s, Emit(c, e, key)), Apply(c, e, key).z) <==> BaseAfter(c, e, key, |PROMPT|) == |PROMPT|
  {
    hide Feed, Completion;
    ExactInStep(s, e.z);
    KeyKeepsPrintable(c, e, key);
    KeyKeepsStep(c, e, key, s, |PROMPT|);
    if key.Tab? {
      TabExact(c, e, s);
    } else if IsLocal(key) {
      LocalExact(c, e, key, s);
    } else {
      FeedNothing(s);
    }
  }

  // While the bytes of one read are processed the screen keeps showing the line at some
  // column, with the cursor in its place.
  lemma {:induction false} ChunkKeepsStep(c: Context, e: Editor, rx: bytes, s: Screen, base: nat) returns (base': nat)
    requires EditorOk(c, e) && ContextPrintable(c) && InStep(s, base, e.z) && AllPrintable(Text(e.z))
    ensures var r := Process(c, e, rx);
            r.status == Editing ==>
              EditorOk(c, r.e) && InStep(Feed(s, r.out), base', r.e.z) && AllPrintable(Text(r.e.z))
    decreases |rx|
  {
    hide Feed, Emit, Apply, Decode, InStep;
    if rx == [] {
      FeedNothing(s);
      base' := base;
    } else {
      var (key, k) := Decode(rx);
      ApplyKeepsOk(c, e, key);
      var next := Apply(c, e, key);
      base' := base;
      if StatusOf(e, key) == Editing {
        DecodePrintable(rx);
        KeyKeepsPrintable(c, e, key);
        KeyKeepsStep(c, e, key, s, base);
        base' := ChunkKeepsStep(c, next, rx[k..], Feed(s, Emit(c, e, key)), BaseAfter(c, e, key, base));
        FeedConcat(s, Emit(c, e, key), Process(c, next, rx[k..]).out);
      }
    }
  }

  // Every key of the chunk is local.
  predicate LocalChunk(rx: bytes)
    decreases |rx|
  {
    rx == [] || (IsLocal(Decode(rx).0) && LocalChunk(rx[Decode(rx).1..]))
  }

  // With inserting, deleting and moving only, the row is exactly the prompt and the line.
  lemma {:induction false} LocalChunkExact(c: Context, e: Editor, rx: bytes, s: Screen)
    requires EditorOk(c, e) && LocalChunk(rx) && Exact(s, e.z) && AllPrintable(Text(e.z))
    ensures var r := Process(c, e, rx);
            r.status == Editing ==> Exact(Feed(s, r.out), r.e.z) && AllPrintable(Text(r.e.z))
    decreases |rx|
  {
    hide Feed, Emit, Apply, Decode, Exact;
    if rx == [] {
      FeedNothing(s);
    } else {
      var (key, k) := Decode(rx);
      ApplyKeepsOk(c, e, key);
      var next := Apply(c, e, key);
      if StatusOf(e, key) == Editing {
        DecodePrintable(rx);
        LocalExact(c, e, key, s);
        LocalPrintable(c, e, key);
        LocalChunkExact(c, next, rx[k..], Feed(s, Emit(c, e, key)));
        FeedConcat(s, Emit(c, e, key), Process(c, next, rx[k..]).out);
      }
    }
  }

  // A line starts out exact: the prompt on a fresh row.
  lemma PromptExact()
    ensures Exact(Feed(Screen([], 0, Normal), PROMPT), Zip([], []))
  {
    FeedText(Screen([], 0, Normal), PROMPT);
  }

  // ----- Whole lines, from the prompt on -----

  lemma {:induction false} SessionKeepsStep(c: Context, e: Editor, rxs: seq<bytes>, s: Screen, base: nat)
    returns (base': nat)
    requires EditorOk(c, e) && ContextPrintable(c) && InStep(s, base, e.z) && AllPrintable(Text(e.z))
    ensures var r := Session(c, e, rxs);
            r.status == Editing ==> InStep(Feed(s, r.out), base', r.e.z)
    decreases |rxs|
  {
    hide Feed, Process, InStep;
    base' := base;
    if rxs == [] {
      FeedNothing(s);
    } else {
      ProcessKeepsOk(c, e, rxs[0]);
      var first := Process(c, e, rxs[0]);
      var mid := ChunkKeepsStep(c, e, rxs[0], s, base);
      if first.status == Editing {
        base' := SessionKeepsStep(c, first.e, rxs[1..], Feed(s, first.out), mid);
        FeedConcat(s, first.out, Session(c, first.e, rxs[1..]).out);
      }
    }
  }

  // Main result: from the prompt on, whatever the reads deliver, as long as the line is being
  // edited the screen shows it at some column and the cursor is in its place.
  lemma LineStaysInStep(c: Context, rxs: seq<bytes>)
    requires ContextPrintable(c)
    ensures var r := Session(c, FRESH, rxs);
            r.status == Editing ==>
              exists base: nat :: InStep(Feed(Screen([], 0, Normal), PROMPT + r.out), base, r.e.z)
  {
    hide Feed, Session, InStep, Exact;
    var start := Screen([], 0, Normal);
    PromptExact();
    ExactInStep(Feed(start, PROMPT), FRESH.z);
    var base := SessionKeepsStep(c, FRESH, rxs, Feed(start, PROMPT), |PROMPT|);
    FeedConcat(start, PROMPT, Session(c, FRESH, rxs).out);
  }

  lemma {:induction false} SessionExact(c: Context, e: Editor, rxs: seq<bytes>, s: Screen)
    requires EditorOk(c, e) && Exact(s, e.z) && AllPrintable(Text(e.z))
    requires forall k :: 0 <= k < |rxs| ==> LocalChunk(rxs[k])
    ensures var r := Session(c, e, rxs);
            r.status == Editing ==> Exact(Feed(s, r.out), r.e.z)
    decreases |rxs|
  {
    hide Feed, Process, Exact;
    if rxs == [] {
      FeedNothing(s);
    } else {
      ProcessKeepsOk(c, e, rxs[0]);
      var first := Process(c, e, rxs[0]);
      LocalChunkExact(c, e, rxs[0], s);
      if first.status == Editing {
        SessionExact(c, first.e, rxs[1..], Feed(s, first.out));
        FeedConcat(s, first.out, Session(c, first.e, rxs[1..]).out);
      }
    }
  }

  // Main result: with inserting, deleting and moving only, the row is at all times exactly
  // the prompt and the line.
  lemma LineStaysExact(c: Context, rxs: seq<bytes>)
    requires forall k :: 0 <= k < |rxs| ==> LocalChunk(rxs[k])
    ensures var r := Session(c, FRESH, rxs);
            r.status == Editing ==> Exact(Feed(Screen([], 0, Normal), PROMPT + r.out), r.e.z)
  {
    hide Feed, Session, Exact;
    var start := Screen([], 0, Normal);
    PromptExact();
    SessionExact(c, FRESH, rxs, Feed(start, PROMPT));
    FeedConcat(start, PROMPT, Session(c, FRESH, rxs).out);
  }

  // ----- Exactly when the screen stays in step -----

  const BLANK: Screen := Screen([], 0, Normal)

  // The editor and the screen after the first n keys of a line.
  function After(c: Context, ks: seq<Key>, n: nat): Result
    requires n <= |ks|
  {
    Keys.RunKeys(c, FRESH, ks[..n])
  }

  function ScreenAfter(c: Context, ks: seq<Key>, n: nat): Screen
    requires n <= |ks|
  {
    Feed(BLANK, PROMPT + After(c, ks, n).out)
  }

  ghost predicate ShownAfter(c: Context, ks: seq<Key>, n: nat)
    requires n <= |ks|
  {
    exists base: nat :: InStep(ScreenAfter(c, ks, n), base, After(c, ks, n).e.z)
  }

  predicate PrintableAfter(c: Context, ks: seq<Key>, n: nat)
    requires n <= |ks|
  {
    AllPrintable(Text(After(c, ks, n).e.z))
  }

  lemma StepInRow(s: Screen, base: nat, z: Zip)
    requires InStep(s, base, z) && AllPrintable(s.row)
    ensures AllPrintable(Text(z))
  {
    forall k | 0 <= k < |Text(z)| ensures IsPrintable(Text(z)[k]) {
      assert Text(z)[k] == Cell(s.row, base + k);
    }
  }

  lemma ShownIsPrintable(c: Context, ks: seq<Key>, n: nat)
    requires n <= |ks| && ShownAfter(c, ks, n)
    ensures PrintableAfter(c, ks, n)
  {
    hide InStep, Feed, After;
    var base: nat :| InStep(ScreenAfter(c, ks, n), base, After(c, ks, n).e.z);
    RowStaysPrintable(BLANK, PROMPT + After(c, ks, n).out);
    StepInRow(ScreenAfter(c, ks, n), base, After(c, ks, n).e.z);
  }

  // One key more.
  lemma AfterNext(c: Context, ks: seq<Key>, n: nat)
    requires n < |ks|
    ensures var was := After(c, ks, n);
            var now := After(c, ks, n + 1);
            && EditorOk(c, was.e)
            && (was.status != Editing ==> now == was)
            && (was.status == Editing ==>
                  && now.e == Apply(c, was.e, ks[n]) && now.status == StatusOf(was.e, ks[n])
                  && now.out == was.out + Emit(c, was.e, ks[n])
                  && ScreenAfter(c, ks, n + 1) == Feed(ScreenAfter(c, ks, n), Emit(c, was.e, ks[n])))
  {
    hide Feed, Apply, Emit, StatusOf, Keys.RunKeys;
    var was := After(c, ks, n);
    assert ks[..n + 1] == ks[..n] + [ks[n]];
    Keys.RunKeysConcat(c, FRESH, ks[..n], [ks[n]]);
    if was.status == Editing {
      Keys.OneKey(c, was.e, ks[n]);
      Assoc(PROMPT, was.out, Emit(c, was.e, ks[n]));
      FeedConcat(BLANK, PROMPT + was.out, Emit(c, was.e, ks[n]));
    }
  }

  lemma {:induction false} PrintableIsShown(c: Context, ks: seq<Key>, n: nat)
    requires n <= |ks| && forall k :: 0 <= k < |ks| ==> KeyPrintable(ks[k])
    requires forall m :: 0 <= m <= n && After(c, ks, m).status == Editing ==> PrintableAfter(c, ks, m)
    ensures After(c, ks, n).status == Editing ==> ShownAfter(c, ks, n)
    decreases n
  {
    hide InStep, Feed, After, Apply, Emit, StatusOf;
    if n == 0 {
      FreshShown(c, ks);
    } else {
      PrintableIsShown(c, ks, n - 1);
      AfterNext(c, ks, n - 1);
      var was := After(c, ks, n - 1);
      if After(c, ks, n).status == Editing {
        assert PrintableAfter(c, ks, n - 1) && PrintableAfter(c, ks, n);
        var base: nat :| InStep(ScreenAfter(c, ks, n - 1), base, was.e.z);
        KeyKeepsStep(c, was.e, ks[n - 1], ScreenAfter(c, ks, n - 1), base);
      }
    }
  }

  lemma FreshShown(c: Context, ks: seq<Key>)
    ensures ShownAfter(c, ks, 0)
  {
    hide InStep, Feed, Exact;
    assert ks[..0] == [];
    Keys.NoKeys(c, FRESH);
    PromptExact();
    Unit(PROMPT);
    ExactInStep(Feed(BLANK, PROMPT), FRESH.z);
    assert InStep(ScreenAfter(c, ks, 0), |PROMPT|, After(c, ks, 0).e.z);
  }

  // Main result, for every history and every directory: the screen shows the line after each
  // key, up to any point at which it is still being edited, if and only if the line was
  // printable after each.
  lemma InStepIffPrintable(c: Context, ks: seq<Key>, n: nat)
    requires n <= |ks| && forall k :: 0 <= k < |ks| ==> KeyPrintable(ks[k])
    ensures (forall m :: 0 <= m <= n && After(c, ks, m).status == Editing ==> ShownAfter(c, ks, m)) <==>
            (forall m :: 0 <= m <= n && After(c, ks, m).status == Editing ==> PrintableAfter(c, ks, m))
  {
    hide After, ShownAfter, PrintableAfter;
    if forall m :: 0 <= m <= n && After(c, ks, m).status == Editing ==> ShownAfter(c, ks, m) {
      forall m | 0 <= m <= n && After(c, ks, m).status == Editing ensures PrintableAfter(c, ks, m) {
        ShownIsPrintable(c, ks, m);
      }
    }
    if forall m :: 0 <= m <= n && After(c, ks, m).status == Editing ==> PrintableAfter(c, ks, m) {
      forall m | 0 <= m <= n && After(c, ks, m).status == Editing ensures ShownAfter(c, ks, m) {
        PrintableIsShown(c, ks, m);
      }
    }
  }

  // The keys that reads are decoded to insert printable bytes only.
  lemma {:induction false} ReadsPrintable(rxs: seq<bytes>)
    ensures forall k :: 0 <= k < |Keys.KeysOfReads(rxs)| ==> KeyPrintable(Keys.KeysOfReads(rxs)[k])
  {
    if rxs != [] {
      ReadPrintable(rxs[0]);
      ReadsPrintable(rxs[1..]);
    }
  }

  lemma {:induction false} ReadPrintable(rx: bytes)
    ensures forall k :: 0 <= k < |Keys.KeysOf(rx)| ==> KeyPrintable(Keys.KeysOf(rx)[k])
    decreases |rx|
  {
    hide Decode, KeyPrintable;
    if rx != [] {
      DecodePrintable(rx);
      ReadPrintable(rx[Decode(rx).1..]);
    }
  }

  // ----- Exactly which histories and directories keep the screen in step -----

  // What an up key can show is printable.
  ghost predicate WindowPrintable(c: Context) {
    forall k :: 0 <= k < |History.Window(c.log)| ==> AllPrintable(Text(LoadEntry(History.Window(c.log)[k])))
  }

  // Every completion of a printable line is printable.
  ghost predicate CompletesPrintable(c: Context) {
    forall z: Zip :: |Text(z)| < LINE_MAX && AllPrintable(Text(z)) ==> AllPrintable(Text(Completed(c, z)))
  }

  // The line that the tab key leaves.
  function Completed(c: Context, z: Zip): Zip {
    Load(Completion(c, z).line, Completion(c, z).cursor)
  }

  lemma ShownInWindow(c: Context, cursor: int)
    requires History.CursorOk(c.log, cursor) && WindowPrintable(c)
    ensures History.Shown(c.log, cursor).Some? ==>
              AllPrintable(Text(LoadEntry(History.Shown(c.log, cursor).value)))
  {
    if cursor >= 0 {
      var w := History.Window(c.log);
      assert w[|w| - 1 - cursor] == c.log[|c.log| - 1 - cursor];
    }
  }

  lemma GoodKeepsPrintable(c: Context, e: Editor, key: Key)
    requires EditorOk(c, e) && WindowPrintable(c) && CompletesPrintable(c)
    requires KeyPrintable(key) && AllPrintable(Text(e.z))
    ensures AllPrintable(Text(Apply(c, e, key).z))
  {
    hide Load, Completion;
    match key
    case Up =>
      if History.Up(c.log, e.nav).0.Some? {
        ShownInWindow(c, e.nav + 1);
      }
    case Down =>
      if History.Down(c.log, e.nav).0.Some? {
        ShownInWindow(c, e.nav - 1);
      }
    case Tab =>
      assert AllPrintable(Text(Completed(c, e.z)));
    case Enter =>
    case Interrupt =>
    case _ => LocalPrintable(c, e, key);
  }

  lemma {:induction false} GoodStaysPrintable(c: Context, ks: seq<Key>, n: nat)
    requires WindowPrintable(c) && CompletesPrintable(c)
    requires n <= |ks| && forall k :: 0 <= k < |ks| ==> KeyPrintable(ks[k])
    ensures PrintableAfter(c, ks, n)
    decreases n
  {
    hide After, Apply, Emit, StatusOf, WindowPrintable, CompletesPrintable;
    if n == 0 {
      FreshShown(c, ks);
      ShownIsPrintable(c, ks, 0);
    } else {
      GoodStaysPrintable(c, ks, n - 1);
      AfterNext(c, ks, n - 1);
      if After(c, ks, n - 1).status == Editing {
        GoodKeepsPrintable(c, After(c, ks, n - 1).e, ks[n - 1]);
      }
    }
  }

  // Typing and left keys reach every printable line with every cursor.
  lemma {:induction false} LeftsReach(c: Context, e: Editor, k: nat)
    requires EditorOk(c, e) && k <= |e.z.before|
    ensures var r := Keys.RunKeys(c, e, Keys.Repeat(Left, k));
            var n := |e.z.before| - k;
            r.status == Editing && r.e == e.(z := Zip(e.z.before[..n], e.z.before[n..] + e.z.after))
    decreases k
  {
    hide Keys.RunKeys;
    if k == 0 {
      Keys.NoKeys(c, e);
      assert e.z.before[..|e.z.before|] == e.z.before && e.z.before[|e.z.before|..] + e.z.after == e.z.after;
    } else {
      LeftsReach(c, e, k - 1);
      assert Keys.Repeat(Left, k) == Keys.Repeat(Left, k - 1) + [Left];
      Keys.RunNext(c, e, Keys.Repeat(Left, k - 1), Left);
      var n := |e.z.before| - k;
      assert e.z.before[..n + 1][..n] == e.z.before[..n];
      assert [e.z.before[n]] + (e.z.before[n + 1..] + e.z.after) == e.z.before[n..] + e.z.after;
    }
  }

  lemma ZipReach(c: Context, z: Zip) returns (ks: seq<Key>)
    requires |Text(z)| < LINE_MAX && AllPrintable(Text(z))
    ensures forall k :: 0 <= k < |ks| ==> KeyPrintable(ks[k])
    ensures Keys.RunKeys(c, FRESH, ks).status == Editing && Keys.RunKeys(c, FRESH, ks).e == Editor(z, -1)
  {
    hide Keys.RunKeys, Keys.KeysOf, Process, KeyPrintable;
    var text := Text(z);
    var typed := Keys.KeysOf(text);
    TypingInserts(c, FRESH, text);
    Keys.ProcessIsKeys(c, FRESH, text);
    ReadPrintable(text);
    assert Take(text, LINE_MAX - 1) == text;
    Unit(text);
    var mid := Editor(Zip(text, []), -1);
    assert Keys.RunKeys(c, FRESH, typed).e == mid;
    LeftsReach(c, mid, |z.after|);
    Keys.RunKeysConcat(c, FRESH, typed, Keys.Repeat(Left, |z.after|));
    ks := typed + Keys.Repeat(Left, |z.after|);
    assert text[..|z.before|] == z.before && text[|z.before|..] + [] == z.after;
    assert KeyPrintable(Left) by { LeftPrintable(); }
  }

  lemma LeftPrintable()
    ensures KeyPrintable(Left) && KeyPrintable(Up) && KeyPrintable(Tab)
  {
  }

  ghost predicate AlwaysShown(c: Context) {
    forall ks: seq<Key>, n: nat ::
      n <= |ks| && (forall k :: 0 <= k < |ks| ==> KeyPrintable(ks[k])) && After(c, ks, n).status == Editing ==>
        ShownAfter(c, ks, n)
  }

  // A sequence of keys that is shown at its end leaves a printable line.
  lemma ShownAtEnd(c: Context, ks: seq<Key>)
    requires AlwaysShown(c) && (forall k :: 0 <= k < |ks| ==> KeyPrintable(ks[k]))
    requires Keys.RunKeys(c, FRESH, ks).status == Editing
    ensures AllPrintable(Text(Keys.RunKeys(c, FRESH, ks).e.z))
  {
    hide Keys.RunKeys, ShownAfter;
    assert ks[..|ks|] == ks;
    assert After(c, ks, |ks|).status == Editing;
    ShownIsPrintable(c, ks, |ks|);
  }

  lemma ShownGivesWindow(c: Context)
    requires AlwaysShown(c)
    ensures WindowPrintable(c)
  {
    hide AlwaysShown, Keys.RunKeys;
    LeftPrintable();
    forall k | 0 <= k < |History.Window(c.log)|
      ensures AllPrintable(Text(LoadEntry(History.Window(c.log)[k])))
    {
      var n := |History.Window(c.log)| - k;
      Keys.UpsReach(c, n);
      ShownAtEnd(c, Keys.Repeat(Up, n));
    }
  }

  lemma ShownGivesCompletions(c: Context)
    requires AlwaysShown(c)
    ensures CompletesPrintable(c)
  {
    hide AlwaysShown, Keys.RunKeys, Load, Completion, Emit;
    LeftPrintable();
    forall z: Zip | |Text(z)| < LINE_MAX && AllPrintable(Text(z))
      ensures AllPrintable(Text(Completed(c, z)))
    {
      var ks := ZipReach(c, z);
      Keys.RunNext(c, FRESH, ks, Tab);
      ShownAtEnd(c, ks + [Tab]);
    }
  }

  // Main result: the screen is in step after every sequence of keys, as long as the line is
  // edited, if and only if the stored entries are printable and every completion of a
  // printable line is.
  lemma AlwaysInStep(c: Context)
    ensures AlwaysShown(c) <==> WindowPrintable(c) && CompletesPrintable(c)
  {
    hide WindowPrintable, CompletesPrintable, After;
    if AlwaysShown(c) {
      ShownGivesWindow(c);
      ShownGivesCompletions(c);
    }
    if WindowPrintable(c) && CompletesPrintable(c) {
      forall ks: seq<Key>, n: nat |
        n <= |ks| && (forall k :: 0 <= k < |ks| ==> KeyPrintable(ks[k])) && After(c, ks, n).status == Editing
        ensures ShownAfter(c, ks, n)
      {
        forall m | 0 <= m <= n ensures PrintableAfter(c, ks, m) {
          GoodStaysPrintable(c, ks, m);
        }
        PrintableIsShown(c, ks, n);
      }
    }
  }
}
