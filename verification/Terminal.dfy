// A terminal of unbounded width, as far as the line editor uses one: printable bytes, CR,
// LF and the two cursor sequences ESC [ C and ESC [ D.
module Terminal {
  import opened Bytes

  datatype Mode = Normal | Escape | Csi

  // The current row (blank behind its last cell), the cursor column, the parser state.
  datatype Screen = Screen(row: bytes, col: nat, mode: Mode)

  const RIGHT: byte := 'C' as int
  const LEFT: byte := 'D' as int

  predicate IsPrintable(b: byte) {
    0x20 <= b < 0x7F
  }

  predicate AllPrintable(text: bytes) {
    forall k :: 0 <= k < |text| ==> IsPrintable(text[k])
  }

  function Cell(row: bytes, i: nat): byte {
    if i < |row| then row[i] else SPACE
  }

  function Put(row: bytes, col: nat, b: byte): (r: bytes)
    ensures forall i: nat :: Cell(r, i) == if i == col then b else Cell(row, i)
  {
    if col < |row| then row[col := b] else row + seq(col - |row|, _ => SPACE) + [b]
  }

  // A line feed starts a fresh row: the kernel's driver expands it to CR LF.
  function Feed1(s: Screen, b: byte): Screen {
    match s.mode
    case Normal =>
      if b == CR then s.(col := 0)
      else if b == LF then Screen([], 0, Normal)
      else if b == ESC then s.(mode := Escape)
      else if IsPrintable(b) then Screen(Put(s.row, s.col, b), s.col + 1, Normal)
      else s
    case Escape => s.(mode := if b == OPEN then Csi else Normal)
    case Csi =>
      if b == RIGHT then s.(col := s.col + 1, mode := Normal)
      else if b == LEFT then s.(col := if s.col > 0 then s.col - 1 else 0, mode := Normal)
      else s.(mode := Normal)
  }

  function Feed(s: Screen, text: bytes): Screen
    decreases |text|
  {
    if text == [] then s else Feed(Feed1(s, text[0]), text[1..])
  }

  lemma {:induction false} FeedConcat(s: Screen, a: bytes, b: bytes)
    ensures Feed(s, a + b) == Feed(Feed(s, a), b)
    decreases |a|
  {
    if a == [] {
      assert a + b == b;
    } else {
      assert (a + b)[1..] == a[1..] + b;
      FeedConcat(Feed1(s, a[0]), a[1..], b);
    }
  }

  // The cells of a row after text is written over it from a column on.
  ghost predicate Overwritten(row: bytes, prior: bytes, col: nat, text: bytes) {
    forall i: nat :: Cell(row, i) == if col <= i < col + |text| then text[i - col] else Cell(prior, i)
  }

  lemma {:induction false} FeedText(s: Screen, text: bytes)
    requires s.mode == Normal && AllPrintable(text)
    ensures Feed(s, text).mode == Normal && Feed(s, text).col == s.col + |text|
    ensures Overwritten(Feed(s, text).row, s.row, s.col, text)
    decreases |text|
  {
    if text != [] {
      assert IsPrintable(text[0]);
      var next := Feed1(s, text[0]);
      FeedText(next, text[1..]);
    }
  }

  const GO_LEFT: bytes := [ESC, OPEN, LEFT]
  const GO_RIGHT: bytes := [ESC, OPEN, RIGHT]

  function Lefts(k: nat): bytes {
    if k == 0 then [] else GO_LEFT + Lefts(k - 1)
  }

  lemma FeedArrow(s: Screen)
    requires s.mode == Normal
    ensures Feed(s, GO_RIGHT) == s.(col := s.col + 1)
    ensures Feed(s, GO_LEFT) == s.(col := if s.col > 0 then s.col - 1 else 0)
  {
    hide Feed;
    var lead := [ESC] + [OPEN];
    assert GO_RIGHT == lead + [RIGHT] && GO_LEFT == lead + [LEFT];
    FeedConcat(s, lead, [RIGHT]);
    FeedConcat(s, lead, [LEFT]);
    FeedConcat(s, [ESC], [OPEN]);
    FeedOne(s, ESC);
    FeedOne(Feed1(s, ESC), OPEN);
    FeedOne(Feed(s, lead), RIGHT);
    FeedOne(Feed(s, lead), LEFT);
  }

  lemma {:induction false} FeedLefts(s: Screen, k: nat)
    requires s.mode == Normal && k <= s.col
    ensures Feed(s, Lefts(k)) == s.(col := s.col - k)
    decreases k
  {
    if k > 0 {
      FeedArrow(s);
      FeedConcat(s, GO_LEFT, Lefts(k - 1));
      FeedLefts(s.(col := s.col - 1), k - 1);
    }
  }

  lemma FeedOne(s: Screen, b: byte)
    ensures Feed(s, [b]) == Feed1(s, b)
  {
    assert [b][1..] == [];
  }

  function Blanks(n: nat): (r: bytes)
    ensures |r| == n && AllPrintable(r) && forall k :: 0 <= k < n ==> r[k] == SPACE
  {
    seq(n, _ => SPACE)
  }

  // What the editor writes to clear a line of n bytes.
  function Clear(n: nat): bytes {
    [CR] + Blanks(n) + [CR]
  }

  // It blanks the first n cells of the row, from column 0, and leaves the rest.
  lemma FeedClear(s: Screen, n: nat)
    requires s.mode == Normal
    ensures Feed(s, Clear(n)).mode == Normal && Feed(s, Clear(n)).col == 0
    ensures Overwritten(Feed(s, Clear(n)).row, s.row, 0, Blanks(n))
  {
    FeedConcat(s, [CR] + Blanks(n), [CR]);
    FeedConcat(s, [CR], Blanks(n));
    FeedOne(s, CR);
    FeedText(s.(col := 0), Blanks(n));
    FeedOne(Feed(s.(col := 0), Blanks(n)), CR);
  }

  // In whatever state the terminal is, it ends in column 0, outside any sequence.
  lemma FeedClearAny(s: Screen, n: nat)
    ensures Feed(s, Clear(n)).mode == Normal && Feed(s, Clear(n)).col == 0
  {
    FeedConcat(s, [CR] + Blanks(n), [CR]);
    FeedConcat(s, [CR], Blanks(n));
    FeedOne(s, CR);
    FeedText(Feed1(s, CR), Blanks(n));
    FeedOne(Feed(Feed1(s, CR), Blanks(n)), CR);
  }

  // A row only ever holds printable bytes.
  lemma {:induction false} RowStaysPrintable(s: Screen, text: bytes)
    requires AllPrintable(s.row)
    ensures AllPrintable(Feed(s, text).row)
    decreases |text|
  {
    if text != [] {
      RowStaysPrintable(Feed1(s, text[0]), text[1..]);
    }
  }
}
