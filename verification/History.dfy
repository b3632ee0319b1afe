// The history ring, arrow-key navigation and '!' expansion (src/features/history.rs).
//
// The ring of 16 slots is described by the log of all accepted lines: what the shell does
// is stated as functions of the log, the class keeps its arrays in step with it.
module History {
  import opened Bytes
  import opened Io
  import opened Buffer

  const HISTORY_SIZE: nat := 16
  const HISTORY_LINE_MAX: nat := 128

  // ----- The log and what can be seen of it -----

  function Trim(line: bytes): bytes {
    if line != [] && (line[|line| - 1] == LF || line[|line| - 1] == CR || line[|line| - 1] == NUL)
    then Trim(line[..|line| - 1]) else line
  }

  // The log after a push: the trimmed line, cut to 127 bytes, unless it is empty or equal to
  // the entry stored last.
  function Pushed(log: seq<bytes>, line: bytes): seq<bytes> {
    var t := Trim(line);
    if t == [] || (log != [] && log[|log| - 1] == t) then log else log + [Take(t, HISTORY_LINE_MAX - 1)]
  }

  ghost predicate NoRepeats(log: seq<bytes>) {
    forall k :: 0 < k < |log| ==> log[k - 1] != log[k]
  }

  // Neighbouring entries stay different, except when a line of 128 bytes or more is cut to
  // the entry in front of it: the test is made before the cut.
  lemma PushKeepsNoRepeats(log: seq<bytes>, line: bytes)
    requires NoRepeats(log)
    ensures NoRepeats(Pushed(log, line)) <==>
            !(log != [] && |Trim(line)| >= HISTORY_LINE_MAX && log[|log| - 1] == Trim(line)[..HISTORY_LINE_MAX - 1])
  {
    hide Trim;
    var t := Trim(line);
    var more := Pushed(log, line);
    if log != [] && more != log {
      assert more[|log|] == Take(t, HISTORY_LINE_MAX - 1) && more[|log| - 1] == log[|log| - 1];
      assert |t| < HISTORY_LINE_MAX ==> Take(t, HISTORY_LINE_MAX - 1) == t;
    }
  }

  function Stored(log: seq<bytes>): nat {
    Min(|log|, HISTORY_SIZE)
  }

  function Oldest(log: seq<bytes>): nat {
    |log| - Stored(log)
  }

  // The entries that are still there, oldest first.
  function Window(log: seq<bytes>): (w: seq<bytes>)
    ensures |w| == Stored(log)
  {
    log[Oldest(log)..]
  }

  // The entry that a slot of the ring holds: the latest one stored there.
  function Occupant(log: seq<bytes>, slot: nat): bytes
    requires slot < Stored(log)
  {
    log[|log| - 1 - (|log| - 1 - slot) % HISTORY_SIZE]
  }

  lemma OccupantAt(log: seq<bytes>, k: nat)
    requires Oldest(log) <= k < |log|
    ensures k % HISTORY_SIZE < Stored(log) && Occupant(log, k % HISTORY_SIZE) == log[k]
  {
    var n := |log|;
    assert (n - 1 - k % 16) % 16 == (n - 1 - k) % 16 by { ModShift(n - 1, k); }
  }

  // Storing one more entry changes the occupant of its slot only.
  lemma PushedOccupants(log: seq<bytes>, entry: bytes, s: nat)
    requires s < Stored(log + [entry])
    ensures |log| % HISTORY_SIZE < Stored(log + [entry])
    ensures s == |log| % HISTORY_SIZE ==> Occupant(log + [entry], s) == entry
    ensures s != |log| % HISTORY_SIZE ==> s < Stored(log) && Occupant(log + [entry], s) == Occupant(log, s)
  {
    var n := |log|;
    ModShift(n, n);
    if s != n % HISTORY_SIZE {
      ModNext(n - 1 - s);
      if (n - s) % HISTORY_SIZE == 0 {
        ModIsSlot(n, s);
      }
    }
  }

  lemma ModNext(a: int)
    ensures (a + 1) % HISTORY_SIZE == if a % HISTORY_SIZE == HISTORY_SIZE - 1 then 0 else a % HISTORY_SIZE + 1
  {
  }

  lemma ModIsSlot(n: nat, s: nat)
    requires s < HISTORY_SIZE && (n - s) % HISTORY_SIZE == 0
    ensures s == n % HISTORY_SIZE
  {
  }

  lemma ModShift(a: nat, k: nat)
    ensures (a - k % 16) % 16 == (a - k) % 16
  {
    assert a - k % 16 == a - k + 16 * (k / 16);
  }

  // history_get. The index sum is 64-bit arithmetic and wraps.
  function Recall(log: seq<bytes>, n: nat): Option<bytes> {
    if log == [] || n == 0 then None
    else
      var logical := (Oldest(log) + (n - 1)) % U64_LIMIT;
      if logical >= |log| then None else RecallSlot(log, logical)
  }

  function RecallSlot(log: seq<bytes>, logical: nat): Option<bytes>
    requires log != [] && logical < |log|
  {
    var slot := logical % HISTORY_SIZE;
    assert slot < Stored(log);
    Some(Occupant(log, slot))
  }

  // It is the n-th entry of the window exactly when the sum does not wrap.
  lemma RecallIsWindow(log: seq<bytes>, n: nat)
    requires 0 < n < U64_LIMIT && |log| < U64_LIMIT
    ensures Recall(log, n) == (if n <= |Window(log)| then Some(Window(log)[n - 1]) else None) <==>
            Oldest(log) + (n - 1) < U64_LIMIT
  {
    hide Occupant;
    WrapOnce(Oldest(log) + (n - 1));
    if log != [] && n <= Stored(log) {
      OccupantAt(log, Oldest(log) + n - 1);
    }
  }

  lemma WrapOnce(x: nat)
    requires x < 2 * U64_LIMIT
    ensures x % U64_LIMIT == if x < U64_LIMIT then x else x - U64_LIMIT
  {
  }

  // ----- Arrow-key navigation -----

  // cursor is -1 when no entry is shown, else the number of steps behind the latest entry.
  ghost predicate CursorOk(log: seq<bytes>, cursor: int) {
    -1 <= cursor < Stored(log)
  }

  function Shown(log: seq<bytes>, cursor: int): Option<bytes>
    requires cursor < |log|
  {
    if cursor < 0 then None else Some(log[|log| - 1 - cursor])
  }

  // What an arrow key returns and the new cursor.
  function Up(log: seq<bytes>, cursor: int): (r: (Option<bytes>, int))
    requires CursorOk(log, cursor)
    ensures CursorOk(log, r.1)
  {
    if cursor + 1 >= Stored(log) then (None, cursor) else (Shown(log, cursor + 1), cursor + 1)
  }

  function Down(log: seq<bytes>, cursor: int): (r: (Option<bytes>, int))
    requires CursorOk(log, cursor)
    ensures CursorOk(log, r.1)
  {
    if cursor <= 0 then (None, -1) else (Shown(log, cursor - 1), cursor - 1)
  }

  // The cursor after k up keys from a fresh line.
  function Ups(log: seq<bytes>, k: nat): (cursor: int)
    ensures CursorOk(log, cursor)
  {
    if k == 0 then -1 else Up(log, Ups(log, k - 1)).1
  }

  // The k-th up key shows the k-th most recent stored entry, and nothing once they run out.
  lemma {:induction false} UpShowsRecent(log: seq<bytes>, k: nat)
    requires k > 0
    ensures Ups(log, k) == Min(k, Stored(log)) - 1
    ensures Up(log, Ups(log, k - 1)).0 ==
            if k <= |Window(log)| then Some(Window(log)[|Window(log)| - k]) else None
  {
    if k > 1 {
      UpShowsRecent(log, k - 1);
    }
  }

  // A down key takes back an up key that moved.
  lemma DownUndoesUp(log: seq<bytes>, cursor: int)
    requires CursorOk(log, cursor) && Up(log, cursor).0.Some?
    ensures Down(log, Up(log, cursor).1) == (Shown(log, cursor), cursor)
  {
  }

  // ----- '!' expansion, unbounded -----

  // Reads decimal digits on top of value n; stops before the digit that would overflow.
  function Digits(text: bytes, n: nat): (r: (nat, nat))
    ensures r.1 <= |text|
    ensures n < U64_LIMIT ==> r.0 < U64_LIMIT
  {
    if text == [] || !IsDigit(text[0]) || n * 10 + (text[0] - ZERO) >= U64_LIMIT then (n, 0)
    else
      var (v, k) := Digits(text[1..], n * 10 + (text[0] - ZERO));
      (v, k + 1)
  }

  function OrEmpty(entry: Option<bytes>): bytes {
    if entry.Some? then entry.value else []
  }

  // What the text at the head of the line expands to, and how many bytes it takes up.
  function ExpandHead(log: seq<bytes>, line: bytes): (r: (bytes, nat))
    requires line != []
    ensures 0 < r.1 <= |line|
  {
    if line[0] != BANG || |line| == 1 then ([line[0]], 1)
    else if line[1] == BANG then
      (if log != [] then log[|log| - 1] else [BANG, BANG], 2)
    else if line[1] == MINUS && Digits(line[2..], 0).0 > 0 then
      var (n, k) := Digits(line[2..], 0);
      (if n <= Stored(log) then log[|log| - n] else [], k + 2)
    else if IsDigit(line[1]) then
      var (n, k) := Digits(line[1..], 0);
      (OrEmpty(Recall(log, n)), k + 1)
    else ([line[0]], 1)
  }

  function Expand(log: seq<bytes>, line: bytes): bytes {
    if line == [] then []
    else
      var (text, k) := ExpandHead(log, line);
      text + Expand(log, line[k..])
  }

  lemma ExpandEmpty(log: seq<bytes>)
    ensures Expand(log, []) == []
  {
  }

  lemma ExpandUnfold(log: seq<bytes>, line: bytes, text: bytes, rest: bytes)
    requires line != [] && ExpandHead(log, line).0 == text && line[ExpandHead(log, line).1..] == rest
    ensures Expand(log, line) == text + Expand(log, rest)
  {
  }

  lemma ExpandStep(log: seq<bytes>, line: bytes, i: nat, before: bytes)
    requires i < |line|
    ensures var (text, k) := ExpandHead(log, line[i..]);
            before + Expand(log, line[i..]) == (before + text) + Expand(log, line[i + k..])
  {
    hide ExpandHead, Expand;
    var (text, k) := ExpandHead(log, line[i..]);
    assert line[i..][k..] == line[i + k..];
    ExpandUnfold(log, line[i..], text, line[i + k..]);
    Assoc(before, text, Expand(log, line[i + k..]));
  }

  lemma NoDigitsNoValue(text: bytes)
    ensures Digits(text, 0).1 == 0 ==> Digits(text, 0).0 == 0
  {
  }

  // Text in front that holds no '!' is copied.
  lemma {:induction false} ExpandPlain(log: seq<bytes>, pre: bytes, line: bytes)
    requires BANG !in pre
    ensures Expand(log, pre + line) == pre + Expand(log, line)
  {
    hide Expand;
    if pre == [] {
      Unit(line);
      Unit(Expand(log, line));
    } else {
      var b := pre[0];
      assert b in pre && pre == [b] + pre[1..];
      ExpandPlain(log, pre[1..], line);
      Assoc([b], pre[1..], line);
      DropHead([b], pre[1..] + line);
      ExpandUnfold(log, pre + line, [b], pre[1..] + line);
      Assoc([b], pre[1..], Expand(log, line));
    }
  }

  ghost predicate NoDigit(rest: bytes) {
    rest == [] || !IsDigit(rest[0])
  }

  // A number is read back digit by digit.
  lemma {:induction false} DigitsRead(ds: bytes, k: nat, rest: bytes)
    requires AllDigits(ds) && k <= |ds| && Value(ds) < U64_LIMIT && NoDigit(rest)
    ensures Digits(ds[k..] + rest, Value(ds[..k])) == (Value(ds), |ds| - k)
    decreases |ds| - k
  {
    var text := ds[k..] + rest;
    if k == |ds| {
      assert text == rest && ds[..k] == ds;
    } else {
      DigitsRead(ds, k + 1, rest);
      ValueGrows(ds, k + 1);
      assert ds[..k + 1][..k] == ds[..k];
      assert text[1..] == ds[k + 1..] + rest;
    }
  }

  lemma NumberRead(n: nat, rest: bytes)
    requires n < U64_LIMIT && NoDigit(rest)
    ensures Digits(Decimal(n) + rest, 0) == (n, |Decimal(n)|)
  {
    var ds := Decimal(n);
    ValueOfDecimal(n);
    DigitsRead(ds, 0, rest);
    assert ds[0..] == ds && Value(ds[..0]) == 0;
  }

  lemma HeadBack(log: seq<bytes>, k: nat, rest: bytes)
    requires 0 < k < U64_LIMIT && NoDigit(rest)
    ensures var line := [BANG, MINUS] + Decimal(k) + rest;
            && ExpandHead(log, line) == (if k <= Stored(log) then log[|log| - k] else [], |Decimal(k)| + 2)
            && line[|Decimal(k)| + 2..] == rest
  {
    hide Digits, Decimal, Recall;
    var line := [BANG, MINUS] + Decimal(k) + rest;
    NumberRead(k, rest);
    Assoc([BANG, MINUS], Decimal(k), rest);
    DropHead([BANG, MINUS], Decimal(k) + rest);
    DropHead([BANG, MINUS] + Decimal(k), rest);
  }

  lemma ExpandBack(log: seq<bytes>, k: nat, rest: bytes)
    requires 0 < k < U64_LIMIT && NoDigit(rest)
    ensures Expand(log, [BANG, MINUS] + Decimal(k) + rest) ==
            (if k <= Stored(log) then log[|log| - k] else []) + Expand(log, rest)
  {
    hide Digits, Decimal, Expand, ExpandHead;
    HeadBack(log, k, rest);
    ExpandUnfold(log, [BANG, MINUS] + Decimal(k) + rest, if k <= Stored(log) then log[|log| - k] else [], rest);
  }

  lemma HeadNumber(log: seq<bytes>, n: nat, rest: bytes)
    requires n < U64_LIMIT && NoDigit(rest)
    ensures var line := [BANG] + Decimal(n) + rest;
            && ExpandHead(log, line) == (OrEmpty(Recall(log, n)), |Decimal(n)| + 1)
            && line[|Decimal(n)| + 1..] == rest
  {
    hide Digits, Decimal, Recall;
    var line := [BANG] + Decimal(n) + rest;
    NumberRead(n, rest);
    Assoc([BANG], Decimal(n), rest);
    DropHead([BANG], Decimal(n) + rest);
    DropHead([BANG] + Decimal(n), rest);
    assert line[1] == Decimal(n)[0];
  }

  lemma ExpandNumber(log: seq<bytes>, n: nat, rest: bytes)
    requires n < U64_LIMIT && NoDigit(rest)
    ensures Expand(log, [BANG] + Decimal(n) + rest) == OrEmpty(Recall(log, n)) + Expand(log, rest)
  {
    hide Digits, Decimal, Recall, Expand, ExpandHead;
    HeadNumber(log, n, rest);
    ExpandUnfold(log, [BANG] + Decimal(n) + rest, OrEmpty(Recall(log, n)), rest);
  }

  // ----- Every '!' -----

  // Of the digits ds in front of rest, the first k are read: all of them, if rest begins with
  // no digit, or as many as stay below 2^64.
  ghost predicate ReadsUpTo(ds: bytes, k: nat, rest: bytes) {
    && AllDigits(ds) && k <= |ds| && Value(ds[..k]) < U64_LIMIT
    && if k == |ds| then NoDigit(rest) else Value(ds[..k + 1]) >= U64_LIMIT
  }

  lemma {:induction false} DigitsLongest(ds: bytes, k: nat, rest: bytes, i: nat)
    requires ReadsUpTo(ds, k, rest) && i <= k
    ensures Digits(ds[i..] + rest, Value(ds[..i])) == (Value(ds[..k]), k - i)
    decreases k - i
  {
    var text := ds[i..] + rest;
    if i == |ds| {
      assert text == rest;
    } else {
      assert text[0] == ds[i] && text[1..] == ds[i + 1..] + rest;
      assert ds[..i + 1][..i] == ds[..i];
      assert Value(ds[..i + 1]) == Value(ds[..i]) * 10 + (ds[i] - ZERO);
      if i < k {
        assert ds[..k][..i + 1] == ds[..i + 1];
        ValueGrows(ds[..k], i + 1);
        DigitsLongest(ds, k, rest, i + 1);
      }
    }
  }

  // Main result: the expansion of a text at each '!' (33). A second '!' recalls the latest
  // entry.
  lemma BangBang(log: seq<bytes>, rest: bytes)
    ensures Expand(log, [33, 33] + rest) ==
            (if log == [] then [33, 33] else log[|log| - 1]) + Expand(log, rest)
  {
    hide Expand;
    DropHead([33, 33], rest);
    ExpandUnfold(log, [33, 33] + rest, if log == [] then [33, 33] else log[|log| - 1], rest);
  }

  // A minus (45) and a number count from the back; without a number, or with 0, the '!' is
  // copied.
  lemma BangMinus(log: seq<bytes>, ds: bytes, k: nat, rest: bytes)
    requires ReadsUpTo(ds, k, rest)
    ensures var n := Value(ds[..k]);
            Expand(log, [33, 45] + (ds + rest)) ==
            if n == 0 then [33] + Expand(log, [45] + (ds + rest))
            else (if n <= |Window(log)| then Window(log)[|Window(log)| - n] else []) + Expand(log, ds[k..] + rest)
  {
    hide Expand, Digits;
    var line := [33, 45] + (ds + rest);
    assert ds[0..] == ds && Value(ds[..0]) == 0;
    DigitsLongest(ds, k, rest, 0);
    DropHead([33, 45], ds + rest);
    assert line[k + 2..] == ds[k..] + rest;
    assert line[1..] == [45] + (ds + rest);
    ExpandUnfold(log, line, ExpandHead(log, line).0, line[ExpandHead(log, line).1..]);
  }

  // A number counts from the front.
  lemma BangNumber(log: seq<bytes>, ds: bytes, k: nat, rest: bytes)
    requires ReadsUpTo(ds, k, rest) && ds != [] && |log| + Value(ds[..k]) < U64_LIMIT
    ensures var n := Value(ds[..k]);
            Expand(log, [33] + (ds + rest)) ==
            (if 1 <= n <= |Window(log)| then Window(log)[n - 1] else []) + Expand(log, ds[k..] + rest)
  {
    hide Expand, Digits, Recall, Front, OrEmpty;
    var line := [33] + (ds + rest);
    assert ds[0..] == ds && Value(ds[..0]) == 0;
    DigitsLongest(ds, k, rest, 0);
    DropHead([33], ds + rest);
    assert line[1] == ds[0];
    assert line[k + 1..] == ds[k..] + rest;
    ExpandUnfold(log, line, ExpandHead(log, line).0, line[ExpandHead(log, line).1..]);
    RecallIsFront(log, Value(ds[..k]));
    FrontIs(log, Value(ds[..k]));
  }

  lemma FrontIs(log: seq<bytes>, n: nat)
    ensures Front(log, n) == if 1 <= n <= |Window(log)| then Window(log)[n - 1] else []
  {
  }

  // Any other '!' starts no reference and is copied.
  lemma LoneBang(log: seq<bytes>, rest: bytes)
    requires rest == [] || (rest[0] != 33 && rest[0] != 45 && !(48 <= rest[0] <= 57))
    ensures Expand(log, [33] + rest) == [33] + Expand(log, rest)
  {
    hide Expand;
    DropHead([33], rest);
    ExpandUnfold(log, [33] + rest, [33], rest);
  }

  // ----- What is remembered -----

  // Line ends and NULs (10, 13, 0) at the end of a line are not part of it.
  lemma {:induction false} TrimIs(line: bytes)
    ensures Trim(line) <= line
    ensures forall k :: |Trim(line)| <= k < |line| ==> line[k] in [0, 10, 13]
    ensures Trim(line) != [] ==> line[|Trim(line)| - 1] !in [0, 10, 13]
  {
    if line != [] && line[|line| - 1] in [0, 10, 13] {
      TrimIs(line[..|line| - 1]);
    }
  }

  // A line is stored, cut to 127 bytes, unless there is nothing in it or it is the latest
  // entry; what can be seen are the last 16 entries.
  lemma Remembered(log: seq<bytes>, line: bytes)
    ensures var t := Trim(line);
            && (Pushed(log, line) == log <==> t == [] || (log != [] && log[|log| - 1] == t))
            && (Pushed(log, line) != log ==> Pushed(log, line) == log + [t[..Min(|t|, 127)]])
    ensures |log| <= 16 ==> Window(log) == log
    ensures |log| > 16 ==> |Window(log)| == 16 && exists older :: |older| + 16 == |log| && log == older + Window(log)
  {
    hide Trim;
    assert log == log[..Oldest(log)] + Window(log);
  }

  // With a non-empty history, "!!" and "!-1" expand alike.
  lemma BangBangIsMinusOne(log: seq<bytes>, pre: bytes, rest: bytes)
    requires log != [] && BANG !in pre && NoDigit(rest)
    ensures Expand(log, pre + ([BANG, BANG] + rest)) == Expand(log, pre + ([BANG, MINUS] + Decimal(1) + rest))
  {
    hide Expand, Decimal, Digits;
    ExpandPlain(log, pre, [BANG, BANG] + rest);
    ExpandPlain(log, pre, [BANG, MINUS] + Decimal(1) + rest);
    ExpandBack(log, 1, rest);
    assert ([BANG, BANG] + rest)[2..] == rest;
    ExpandUnfold(log, [BANG, BANG] + rest, log[|log| - 1], rest);
  }

  // Counting from the front and from the back names the same entry: "!n" and "!-k" expand
  // alike whenever n + k is one more than the number of stored entries.
  lemma FrontIsBack(log: seq<bytes>, n: nat, k: nat, pre: bytes, rest: bytes)
    requires 0 < n && 0 < k && n + k == Stored(log) + 1 && |log| < U64_LIMIT
    requires BANG !in pre && NoDigit(rest)
    ensures Expand(log, pre + ([BANG] + Decimal(n) + rest)) == Expand(log, pre + ([BANG, MINUS] + Decimal(k) + rest))
  {
    hide Expand;
    ExpandPlain(log, pre, [BANG] + Decimal(n) + rest);
    ExpandPlain(log, pre, [BANG, MINUS] + Decimal(k) + rest);
    ExpandNumber(log, n, rest);
    ExpandBack(log, k, rest);
    RecallIsWindow(log, n);
    assert Window(log)[n - 1] == log[|log| - k];
  }

  // ----- Lines that are stored before they are expanded -----

  // A line typed in raw mode goes into the history first, so its references count from a log
  // that ends with the line itself.

  lemma ExpandFree(log: seq<bytes>, line: bytes)
    requires BANG !in line
    ensures Expand(log, line) == line
  {
    hide Expand;
    ExpandPlain(log, line, []);
    ExpandEmpty(log);
    Unit(line);
  }

  lemma {:induction false} TrimKeepsBang(line: bytes)
    requires BANG in line
    ensures Trim(line) != []
  {
    if line[|line| - 1] == LF || line[|line| - 1] == CR || line[|line| - 1] == NUL {
      assert line == line[..|line| - 1] + [line[|line| - 1]];
      TrimKeepsBang(line[..|line| - 1]);
    }
  }

  // What every log holds: entries of 1 to 127 bytes.
  ghost predicate EntriesFit(log: seq<bytes>) {
    forall k :: 0 <= k < |log| ==> 0 < |log[k]| < HISTORY_LINE_MAX
  }

  lemma PushKeepsFit(log: seq<bytes>, line: bytes)
    requires EntriesFit(log)
    ensures EntriesFit(Pushed(log, line))
  {
    hide Trim;
  }

  // The k-th entry from the back, and the n-th stored one from the front, or nothing.
  function Back(log: seq<bytes>, k: nat): bytes {
    if 1 <= k <= Stored(log) then log[|log| - k] else []
  }

  function Front(log: seq<bytes>, n: nat): bytes {
    if 1 <= n <= Stored(log) then Window(log)[n - 1] else []
  }

  lemma RecallIsFront(log: seq<bytes>, n: nat)
    requires |log| + n < U64_LIMIT
    ensures OrEmpty(Recall(log, n)) == Front(log, n)
  {
    hide Occupant, RecallSlot;
    if n > 0 {
      RecallIsWindow(log, n);
    }
  }

  // One more entry moves the count from the back by one, and the count from the front when
  // the ring is full.
  lemma PushedBack(log: seq<bytes>, e: bytes, k: nat)
    requires k > 0
    ensures Back(log + [e], k) == if k == 1 then e else if k <= HISTORY_SIZE then Back(log, k - 1) else []
  {
  }

  lemma PushedFront(log: seq<bytes>, e: bytes, n: nat)
    ensures Front(log + [e], n) ==
            if n == Min(|log| + 1, HISTORY_SIZE) then e
            else if |log| >= HISTORY_SIZE && n > 0 then Front(log, n + 1) else Front(log, n)
  {
  }

  lemma SameMiddle(pre: bytes, x: bytes, y: bytes, rest: bytes)
    ensures pre + (x + rest) == pre + (y + rest) <==> x == y
  {
    if pre + (x + rest) == pre + (y + rest) {
      DropHead(pre, x + rest);
      DropHead(pre, y + rest);
      assert x == (x + rest)[..|x + rest| - |rest|];
      assert y == (y + rest)[..|y + rest| - |rest|];
    }
  }

  // The line that a reference makes, and its expansion.
  function Line(pre: bytes, ref: bytes, rest: bytes): bytes {
    pre + (ref + rest)
  }

  lemma LineTrims(pre: bytes, ref: bytes, rest: bytes)
    requires BANG in ref
    ensures Trim(Line(pre, ref, rest)) != []
  {
    var k :| 0 <= k < |ref| && ref[k] == BANG;
    assert Line(pre, ref, rest)[|pre| + k] == BANG;
    TrimKeepsBang(Line(pre, ref, rest));
  }

  lemma BangBangExpands(log: seq<bytes>, pre: bytes, rest: bytes)
    requires BANG !in pre && BANG !in rest
    ensures Expand(log, Line(pre, [BANG, BANG], rest)) ==
            pre + ((if log == [] then [BANG, BANG] else log[|log| - 1]) + rest)
  {
    hide Expand;
    ExpandPlain(log, pre, [BANG, BANG] + rest);
    assert ([BANG, BANG] + rest)[2..] == rest;
    ExpandUnfold(log, [BANG, BANG] + rest, if log == [] then [BANG, BANG] else log[|log| - 1], rest);
    ExpandFree(log, rest);
  }

  lemma BackExpands(log: seq<bytes>, k: nat, pre: bytes, rest: bytes)
    requires 0 < k < U64_LIMIT && BANG !in pre && BANG !in rest && NoDigit(rest)
    ensures Expand(log, Line(pre, [BANG, MINUS] + Decimal(k), rest)) == pre + (Back(log, k) + rest)
  {
    hide Expand, Decimal;
    ExpandPlain(log, pre, [BANG, MINUS] + Decimal(k) + rest);
    ExpandBack(log, k, rest);
    ExpandFree(log, rest);
  }

  lemma FrontExpands(log: seq<bytes>, n: nat, pre: bytes, rest: bytes)
    requires |log| + n < U64_LIMIT && BANG !in pre && BANG !in rest && NoDigit(rest)
    ensures Expand(log, Line(pre, [BANG] + Decimal(n), rest)) == pre + (Front(log, n) + rest)
  {
    hide Expand, Decimal, Front, Recall;
    ExpandPlain(log, pre, [BANG] + Decimal(n) + rest);
    ExpandNumber(log, n, rest);
    ExpandFree(log, rest);
    RecallIsFront(log, n);
  }

  // "!!" recalls the line itself. That is what it stood for before the line was stored
  // exactly when the last entry was already the line's first 127 bytes, or the history was
  // empty and the line is "!!" alone.
  lemma SubmittedBangBang(log: seq<bytes>, pre: bytes, rest: bytes)
    requires EntriesFit(log) && BANG !in pre && BANG !in rest
    ensures var line := Line(pre, [BANG, BANG], rest);
            var now := Pushed(log, line);
            var own := Take(Trim(line), HISTORY_LINE_MAX - 1);
            && Expand(now, line) == pre + (own + rest)
            && (Expand(now, line) == Expand(log, line) <==>
                if log == [] then Trim(line) == [BANG, BANG] else log[|log| - 1] == own)
  {
    hide Expand, Trim, Line;
    var line := Line(pre, [BANG, BANG], rest);
    var now := Pushed(log, line);
    var own := Take(Trim(line), HISTORY_LINE_MAX - 1);
    LineTrims(pre, [BANG, BANG], rest);
    PushedLast(log, line);
    BangBangExpands(log, pre, rest);
    BangBangExpands(now, pre, rest);
    SameMiddle(pre, own, if log == [] then [BANG, BANG] else log[|log| - 1], rest);
    assert Trim(line) == [BANG, BANG] ==> own == [BANG, BANG];
    assert own == [BANG, BANG] ==> Trim(line) == own;
  }

  // The last entry after a push is the line, trimmed and cut.
  lemma PushedLast(log: seq<bytes>, line: bytes)
    requires EntriesFit(log) && Trim(line) != []
    ensures var now := Pushed(log, line);
            && now != [] && now[|now| - 1] == Take(Trim(line), HISTORY_LINE_MAX - 1)
            && (now == log || now == log + [Take(Trim(line), HISTORY_LINE_MAX - 1)])
  {
    hide Trim;
    var t := Trim(line);
    assert |t| < HISTORY_LINE_MAX ==> Take(t, HISTORY_LINE_MAX - 1) == t;
  }

  // "!-k" stands for the entry that "!-(k - 1)" stood for before the line was stored, and
  // "!-1" for the line; the meaning is kept exactly when nothing was stored or the two
  // entries are equal.
  lemma SubmittedBack(log: seq<bytes>, k: nat, pre: bytes, rest: bytes)
    requires EntriesFit(log) && 0 < k < U64_LIMIT && BANG !in pre && BANG !in rest && NoDigit(rest)
    ensures var line := Line(pre, [BANG, MINUS] + Decimal(k), rest);
            var now := Pushed(log, line);
            var shifted := if k == 1 then Take(Trim(line), HISTORY_LINE_MAX - 1)
                           else if k <= HISTORY_SIZE then Back(log, k - 1) else [];
            && Expand(now, line) == pre + ((if now == log then Back(log, k) else shifted) + rest)
            && (Expand(now, line) == Expand(log, line) <==> now == log || Back(log, k) == shifted)
  {
    hide Expand, Trim, Line, Back, Decimal;
    var ref := [BANG, MINUS] + Decimal(k);
    var line := Line(pre, ref, rest);
    var now := Pushed(log, line);
    assert ref[0] == BANG;
    LineTrims(pre, ref, rest);
    PushedLast(log, line);
    PushedBack(log, Take(Trim(line), HISTORY_LINE_MAX - 1), k);
    BackExpands(log, k, pre, rest);
    BackExpands(now, k, pre, rest);
    SameMiddle(pre, Back(now, k), Back(log, k), rest);
  }

  // The shift by one, as one line expands to another: it holds exactly unless k is 17 and the
  // ring was full.
  lemma BackShifts(log: seq<bytes>, k: nat, pre: bytes, rest: bytes)
    requires EntriesFit(log) && 1 < k < U64_LIMIT && BANG !in pre && BANG !in rest && NoDigit(rest)
    requires Pushed(log, Line(pre, [BANG, MINUS] + Decimal(k), rest)) != log
    ensures var line := Line(pre, [BANG, MINUS] + Decimal(k), rest);
            Expand(Pushed(log, line), line) == Expand(log, Line(pre, [BANG, MINUS] + Decimal(k - 1), rest)) <==>
            k != HISTORY_SIZE + 1 || |log| < HISTORY_SIZE
  {
    hide Expand, Trim, Line, Decimal;
    SubmittedBack(log, k, pre, rest);
    BackExpands(log, k - 1, pre, rest);
    SameMiddle(pre, if k <= HISTORY_SIZE then Back(log, k - 1) else [], Back(log, k - 1), rest);
  }

  // "!n" keeps its meaning while the ring is not full, except that the number one past the
  // stored entries now names the line; in a full ring it names the next entry.
  lemma SubmittedFront(log: seq<bytes>, n: nat, pre: bytes, rest: bytes)
    requires EntriesFit(log) && |log| + 1 + n < U64_LIMIT && BANG !in pre && BANG !in rest && NoDigit(rest)
    ensures var line := Line(pre, [BANG] + Decimal(n), rest);
            var now := Pushed(log, line);
            var shifted := if n == Min(|log| + 1, HISTORY_SIZE) then Take(Trim(line), HISTORY_LINE_MAX - 1)
                           else if |log| >= HISTORY_SIZE && n > 0 then Front(log, n + 1) else Front(log, n);
            && Expand(now, line) == pre + ((if now == log then Front(log, n) else shifted) + rest)
            && (Expand(now, line) == Expand(log, line) <==> now == log || Front(log, n) == shifted)
  {
    hide Expand, Trim, Line, Front, Decimal;
    var ref := [BANG] + Decimal(n);
    var line := Line(pre, ref, rest);
    var now := Pushed(log, line);
    assert ref[0] == BANG;
    LineTrims(pre, ref, rest);
    PushedLast(log, line);
    PushedFront(log, Take(Trim(line), HISTORY_LINE_MAX - 1), n);
    FrontExpands(log, n, pre, rest);
    FrontExpands(now, n, pre, rest);
    SameMiddle(pre, Front(now, n), Front(log, n), rest);
  }

  lemma BackDiffers(log: seq<bytes>, e: bytes, k: nat)
    requires EntriesFit(log + [e]) && NoRepeats(log + [e]) && k > 0
    ensures Back(log + [e], k) != Back(log, k) <==> k <= Stored(log + [e])
  {
    var now := log + [e];
    if k <= |log| {
      assert now[|log| - k] != now[|log| - k + 1];
    }
    assert k <= |now| ==> now[|now| - k] != [];
  }

  lemma FrontDiffers(log: seq<bytes>, e: bytes, n: nat)
    requires EntriesFit(log + [e]) && NoRepeats(log + [e])
    ensures Front(log + [e], n) != Front(log, n) <==>
            if |log| >= HISTORY_SIZE then 0 < n <= HISTORY_SIZE else n == |log| + 1
  {
    var now := log + [e];
    if |log| >= HISTORY_SIZE && 0 < n <= HISTORY_SIZE {
      var i := |log| - HISTORY_SIZE + n;
      assert Front(log, n) == log[i - 1] == now[i - 1];
      assert Front(now, n) == now[i];
      assert now[i - 1] != now[i];
    }
  }

  // With no two neighbours alike the meaning is lost exactly when the line was stored and,
  // for "!-k", k is at most the number of entries now stored;
  lemma SubmittedBackDiffers(log: seq<bytes>, k: nat, pre: bytes, rest: bytes)
    requires EntriesFit(log) && 0 < k < U64_LIMIT && BANG !in pre && BANG !in rest && NoDigit(rest)
    requires NoRepeats(Pushed(log, Line(pre, [BANG, MINUS] + Decimal(k), rest)))
    ensures var line := Line(pre, [BANG, MINUS] + Decimal(k), rest);
            var now := Pushed(log, line);
            Expand(now, line) != Expand(log, line) <==> now != log && k <= Stored(now)
  {
    hide Expand, Trim, Line, Decimal, Back;
    var ref := [BANG, MINUS] + Decimal(k);
    var line := Line(pre, ref, rest);
    assert ref[0] == BANG;
    LineTrims(pre, ref, rest);
    PushedLast(log, line);
    PushKeepsFit(log, line);
    hide Pushed, EntriesFit, NoRepeats;
    var now := Pushed(log, line);
    BackExpands(log, k, pre, rest);
    BackExpands(now, k, pre, rest);
    SameMiddle(pre, Back(now, k), Back(log, k), rest);
    if now != log {
      BackDiffers(log, Take(Trim(line), HISTORY_LINE_MAX - 1), k);
    }
  }

  // for "!n", the ring was full and n is at most 16, or n is one past the stored entries.
  lemma SubmittedFrontDiffers(log: seq<bytes>, n: nat, pre: bytes, rest: bytes)
    requires EntriesFit(log) && |log| + 1 + n < U64_LIMIT && BANG !in pre && BANG !in rest && NoDigit(rest)
    requires NoRepeats(Pushed(log, Line(pre, [BANG] + Decimal(n), rest)))
    ensures var line := Line(pre, [BANG] + Decimal(n), rest);
            var now := Pushed(log, line);
            Expand(now, line) != Expand(log, line) <==>
            now != log && if |log| >= HISTORY_SIZE then 0 < n <= HISTORY_SIZE else n == |log| + 1
  {
    hide Expand, Trim, Line, Decimal, Front;
    var ref := [BANG] + Decimal(n);
    var line := Line(pre, ref, rest);
    assert ref[0] == BANG;
    LineTrims(pre, ref, rest);
    PushedLast(log, line);
    PushKeepsFit(log, line);
    hide Pushed, EntriesFit, NoRepeats;
    var now := Pushed(log, line);
    FrontExpands(log, n, pre, rest);
    FrontExpands(now, n, pre, rest);
    SameMiddle(pre, Front(now, n), Front(log, n), rest);
    if now != log {
      FrontDiffers(log, Take(Trim(line), HISTORY_LINE_MAX - 1), n);
    }
  }

  // ----- The ring -----

  class Ring {
    const slots: array<bytes>
    const lens: array<byte>
    var count: nat
    var nav: int
    ghost var log: seq<bytes>

    ghost predicate Valid()
      reads this, slots, lens
    {
      && slots.Length == HISTORY_SIZE && lens.Length == HISTORY_SIZE
      && (forall s :: 0 <= s < HISTORY_SIZE ==> |slots[s]| == HISTORY_LINE_MAX && lens[s] < HISTORY_LINE_MAX)
      && count == |log| && CursorOk(log, nav)
      && forall s :: 0 <= s < Stored(log) ==> slots[s][..lens[s]] == Occupant(log, s)
    }

    constructor ()
      ensures Valid() && log == [] && nav == -1 && fresh(slots) && fresh(lens)
    {
      slots := new bytes[HISTORY_SIZE](_ => seq(HISTORY_LINE_MAX, _ => NUL));
      lens := new byte[HISTORY_SIZE](_ => 0);
      count, nav, log := 0, -1, [];
    }

    method Push(line: bytes)
      requires Valid() && count + 1 < U64_LIMIT
      modifies this`count, this`log, slots, lens
      ensures Valid() && log == Pushed(old(log), line)
    {
      var end := |line|;
      assert line[..end] == line;
      while end > 0 && (line[end - 1] == LF || line[end - 1] == CR || line[end - 1] == NUL)
        invariant 0 <= end <= |line| && Trim(line[..end]) == Trim(line)
      {
        assert line[..end][..end - 1] == line[..end - 1];
        end := end - 1;
      }
      if end == 0 {
        return;
      }
      assert Trim(line) == line[..end];
      if count > 0 {
        var last := (count - 1) % HISTORY_SIZE;
        OccupantAt(log, count - 1);
        if slots[last][..lens[last]] == line[..end] {
          return;
        }
      }
      var slot := count % HISTORY_SIZE;
      var n := Min(end, HISTORY_LINE_MAX - 1);
      var row := line[..n] + slots[slot][n..];
      slots[slot] := row[n := NUL];
      lens[slot] := n;
      ghost var before := log;
      log := log + [line[..n]];
      count := count + 1;
      assert line[..end][..n] == line[..n];
      forall s | 0 <= s < Stored(log)
        ensures slots[s][..lens[s]] == Occupant(log, s)
      {
        PushedOccupants(before, line[..n], s);
      }
    }

    method Get(n: nat) returns (r: Option<bytes>)
      requires Valid() && n < U64_LIMIT && count < U64_LIMIT
      ensures r == Recall(log, n)
    {
      if count == 0 || n == 0 {
        return None;
      }
      var stored := Min(count, HISTORY_SIZE);
      var oldest := count - stored;
      var logical := (oldest + (n - 1)) % U64_LIMIT;
      if logical >= count {
        return None;
      }
      var slot := logical % HISTORY_SIZE;
      assert slot < Stored(log);
      r := Some(slots[slot][..lens[slot]]);
    }

    method GetLast() returns (r: Option<bytes>)
      requires Valid()
      ensures r == if log == [] then None else Some(log[|log| - 1])
    {
      if count == 0 {
        return None;
      }
      var slot := (count - 1) % HISTORY_SIZE;
      OccupantAt(log, count - 1);
      r := Some(slots[slot][..lens[slot]]);
    }

    method NavReset()
      requires Valid()
      modifies this`nav
      ensures Valid() && nav == -1
    {
      nav := -1;
    }

    method NavUp() returns (r: Option<bytes>)
      requires Valid()
      modifies this`nav
      ensures Valid() && (r, nav) == Up(log, old(nav))
    {
      if count == 0 {
        return None;
      }
      var stored := Min(count, HISTORY_SIZE);
      var newCursor := if nav == -1 then 0 else nav + 1;
      if newCursor >= stored {
        return None;
      }
      nav := newCursor;
      var logical := count - 1 - newCursor;
      OccupantAt(log, logical);
      var slot := logical % HISTORY_SIZE;
      r := Some(slots[slot][..lens[slot]]);
    }

    method NavDown() returns (r: Option<bytes>)
      requires Valid()
      modifies this`nav
      ensures Valid() && (r, nav) == Down(log, old(nav))
    {
      if nav <= 0 {
        nav := -1;
        return None;
      }
      nav := nav - 1;
      var logical := count - 1 - nav;
      OccupantAt(log, logical);
      var slot := logical % HISTORY_SIZE;
      r := Some(slots[slot][..lens[slot]]);
    }

    // The digits of line from position i on.
    method ScanDigits(line: bytes, i: nat) returns (n: nat, j: nat)
      requires i <= |line|
      ensures i <= j <= |line| && Digits(line[i..], 0) == (n, j - i)
    {
      j, n := i, 0;
      while j < |line| && IsDigit(line[j])
        invariant i <= j <= |line| && n < U64_LIMIT
        invariant Digits(line[i..], 0) == (Digits(line[j..], n).0, Digits(line[j..], n).1 + (j - i))
      {
        if n * 10 >= U64_LIMIT || n * 10 + (line[j] - ZERO) >= U64_LIMIT {
          break;
        }
        assert line[j..][1..] == line[j + 1..];
        n := n * 10 + (line[j] - ZERO);
        j := j + 1;
      }
    }

    // The loop body of the expansion: pushes the expansion of the head of line[i..].
    method ExpandOne(line: bytes, i: nat, out: ByteVec) returns (j: nat)
      requires Valid() && count < U64_LIMIT && i < |line| && out.Valid()
      requires slots as object != out.items && lens != out.items
      modifies out, out.items
      ensures out.Valid() && out.pushed == old(out.pushed) + ExpandHead(log, line[i..]).0
      ensures j == i + ExpandHead(log, line[i..]).1
    {
      hide Digits, Recall;
      ghost var before := out.pushed;
      ghost var rest := line[i..];
      if line[i] == BANG && i + 1 < |line| {
        var next := line[i + 1];
        assert rest[1] == next && rest[1..] == line[i + 1..];
        if next == BANG {
          var prev := GetLast();
          if prev.Some? {
            out.Extend(prev.value);
          } else {
            out.Push(BANG);
            out.Push(BANG);
            assert out.pushed == before + [BANG, BANG];
          }
          return i + 2;
        }
        if next == MINUS {
          var n;
          n, j := ScanDigits(line, i + 2);
          assert rest[2..] == line[i + 2..];
          NoDigitsNoValue(rest[2..]);
          if n > 0 && j > i + 2 {
            var stored := Min(count, HISTORY_SIZE);
            if n <= stored {
              var target := count - n;
              OccupantAt(log, target);
              var slot := target % HISTORY_SIZE;
              out.Extend(slots[slot][..lens[slot]]);
            }
            assert n > stored ==> before + [] == before;
            return;
          }
        }
        if IsDigit(next) {
          var n;
          n, j := ScanDigits(line, i + 1);
          var entry := Get(n);
          if entry.Some? {
            out.Extend(entry.value);
          }
          assert entry.None? ==> before + [] == before;
          return;
        }
      }
      out.Push(line[i]);
      j := i + 1;
    }

    method HistoryExpand(line: bytes) returns (r: bytes)
      requires Valid() && count < U64_LIMIT
      ensures r == Take(Expand(log, line), CAPACITY)
    {
      hide Expand, ExpandHead;
      var out := new ByteVec();
      var i := 0;
      assert line[0..] == line;
      while i < |line|
        invariant 0 <= i <= |line| && Valid() && out.Valid() && fresh(out) && fresh(out.items)
        invariant out.pushed + Expand(log, line[i..]) == Expand(log, line)
      {
        ExpandStep(log, line, i, out.pushed);
        i := ExpandOne(line, i, out);
      }
      assert line[i..] == [];
      ExpandEmpty(log);
      Unit(out.pushed);
      r := out.AsSlice();
    }
  }
}
