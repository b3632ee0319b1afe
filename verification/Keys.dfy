// What the editor makes of a stream of keystrokes that arrives cut into reads. Arrow keys are
// the only keys of more than one byte, and are recognized only within one read.
module Keys {
  import opened Bytes
  import opened Terminal
  import opened Raw
  import History
  import Complete

  // ----- Keys of reads -----

  // The keys that one read, and a list of reads, are decoded to.
  function KeysOf(rx: bytes): seq<Key>
    decreases |rx|
  {
    if rx == [] then [] else [Decode(rx).0] + KeysOf(rx[Decode(rx).1..])
  }

  function KeysOfReads(rxs: seq<bytes>): seq<Key> {
    if rxs == [] then [] else KeysOf(rxs[0]) + KeysOfReads(rxs[1..])
  }

  function Joined(rxs: seq<bytes>): bytes {
    if rxs == [] then [] else rxs[0] + Joined(rxs[1..])
  }

  // The editor run on keys.
  function RunKeys(c: Context, e: Editor, ks: seq<Key>): Result
    requires EditorOk(c, e)
    decreases |ks|
  {
    if ks == [] then Result(e, [], Editing)
    else
      ApplyKeepsOk(c, e, ks[0]);
      var next := Apply(c, e, ks[0]);
      if StatusOf(e, ks[0]) != Editing then Result(next, Emit(c, e, ks[0]), StatusOf(e, ks[0]))
      else
        var rest := RunKeys(c, next, ks[1..]);
        rest.(out := Emit(c, e, ks[0]) + rest.out)
  }

  lemma {:induction false} ProcessIsKeys(c: Context, e: Editor, rx: bytes)
    requires EditorOk(c, e)
    ensures Process(c, e, rx) == RunKeys(c, e, KeysOf(rx))
    decreases |rx|
  {
    hide Decode, Apply, Emit, StatusOf;
    if rx != [] {
      var (key, k) := Decode(rx);
      ApplyKeepsOk(c, e, key);
      if StatusOf(e, key) == Editing {
        ProcessIsKeys(c, Apply(c, e, key), rx[k..]);
      }
    }
  }

  lemma {:induction false} RunKeysConcat(c: Context, e: Editor, a: seq<Key>, b: seq<Key>)
    requires EditorOk(c, e)
    ensures var first := RunKeys(c, e, a);
            && EditorOk(c, first.e)
            && RunKeys(c, e, a + b) ==
               if first.status != Editing then first
               else
                 var rest := RunKeys(c, first.e, b);
                 rest.(out := first.out + rest.out)
    decreases |a|
  {
    hide Apply, Emit, StatusOf;
    if a == [] {
      Unit(b);
      Unit(RunKeys(c, e, b).out);
    } else {
      ApplyKeepsOk(c, e, a[0]);
      assert (a + b)[1..] == a[1..] + b;
      if StatusOf(e, a[0]) == Editing {
        var next := Apply(c, e, a[0]);
        RunKeysConcat(c, next, a[1..], b);
        Assoc(Emit(c, e, a[0]), RunKeys(c, next, a[1..]).out, RunKeys(c, RunKeys(c, next, a[1..]).e, b).out);
      }
    }
  }

  // A session depends on the decoded keys only.
  lemma {:induction false} SessionIsKeys(c: Context, e: Editor, rxs: seq<bytes>)
    requires EditorOk(c, e)
    ensures Session(c, e, rxs) == RunKeys(c, e, KeysOfReads(rxs))
    decreases |rxs|
  {
    hide Process, RunKeys;
    if rxs == [] {
      assert RunKeys(c, e, []) == Result(e, [], Editing) by { NoKeys(c, e); }
    } else {
      ProcessIsKeys(c, e, rxs[0]);
      ProcessKeepsOk(c, e, rxs[0]);
      RunKeysConcat(c, e, KeysOf(rxs[0]), KeysOfReads(rxs[1..]));
      var first := Process(c, e, rxs[0]);
      if first.status == Editing {
        SessionIsKeys(c, first.e, rxs[1..]);
      }
    }
  }

  lemma NoKeys(c: Context, e: Editor)
    requires EditorOk(c, e)
    ensures RunKeys(c, e, []) == Result(e, [], Editing)
  {
  }

  lemma OneKey(c: Context, e: Editor, key: Key)
    requires EditorOk(c, e)
    ensures RunKeys(c, e, [key]) == Result(Apply(c, e, key), Emit(c, e, key), StatusOf(e, key))
  {
    hide Apply, Emit, StatusOf;
    ApplyKeepsOk(c, e, key);
    assert [key][1..] == [];
    NoKeys(c, Apply(c, e, key));
    Unit(Emit(c, e, key));
  }

  // ----- Keystrokes and where reads cut them -----

  // Keys that a terminal sends.
  predicate IsSent(key: Key) {
    !key.Ignored? && (key.Insert? ==> IsPrintable(key.b))
  }

  predicate AreSent(ks: seq<Key>) {
    forall k :: 0 <= k < |ks| ==> IsSent(ks[k])
  }

  function Strokes(ks: seq<Key>): bytes
    requires AreSent(ks)
  {
    if ks == [] then [] else Keystroke(ks[0]) + Strokes(ks[1..])
  }

  // Does a read end at this position of the stream?
  predicate CutAt(rxs: seq<bytes>, pos: int) {
    rxs != [] && (pos == |rxs[0]| || (pos > |rxs[0]| && CutAt(rxs[1..], pos - |rxs[0]|)))
  }

  // Is a key at position base an arrow with a read's end inside its three bytes?
  predicate IsCut(key: Key, rxs: seq<bytes>, base: nat) {
    IsArrow(key) && (CutAt(rxs, base + 1) || CutAt(rxs, base + 2))
  }

  // What a key is decoded to: a cut arrow loses its escape and leaves two letters.
  function KeyAsRead(key: Key, cut: bool): seq<Key>
    requires IsSent(key) && (cut ==> IsArrow(key))
  {
    if cut then [Ignored, Insert(OPEN), Insert(Keystroke(key)[2])] else [key]
  }

  function AsRead(ks: seq<Key>, rxs: seq<bytes>, base: nat): seq<Key>
    requires AreSent(ks)
    decreases |ks|
  {
    if ks == [] then []
    else
      KeyAsRead(ks[0], IsCut(ks[0], rxs, base)) + AsRead(ks[1..], rxs, base + |Keystroke(ks[0])|)
  }

  // No arrow is cut.
  predicate IsWhole(ks: seq<Key>, rxs: seq<bytes>, base: nat)
    requires AreSent(ks)
    decreases |ks|
  {
    ks == [] || (!IsCut(ks[0], rxs, base) && IsWhole(ks[1..], rxs, base + |Keystroke(ks[0])|))
  }

  // ----- Decoding -----

  lemma KeysHead(key: Key, rest: bytes)
    requires IsSent(key)
    ensures KeysOf(Keystroke(key) + rest) == [key] + KeysOf(rest)
  {
    hide Decode, Keystroke;
    DecodeKeystroke(key, rest);
    DropHead(Keystroke(key), rest);
  }

  lemma CutEnds(n: nat)
    requires n == 1 || n == 2
    ensures KeysOf(([ESC, OPEN])[..n]) == if n == 1 then [Ignored] else [Ignored, Insert(OPEN)]
  {
    var b: bytes := [OPEN];
    var e: bytes := [ESC];
    assert b[1..] == [] && e[1..] == [];
    assert KeysOf(b) == [Insert(OPEN)];
    assert ([ESC, OPEN])[..1] == e && ([ESC, OPEN])[..2] == [ESC, OPEN];
    assert ([ESC, OPEN])[1..] == b;
  }

  // Dropping the first k bytes of the stream moves every position by k.
  lemma {:induction false} AsReadShift(ks: seq<Key>, rx: bytes, rest: seq<bytes>, k: nat, base: nat)
    requires AreSent(ks) && k <= |rx|
    ensures AsRead(ks, [rx] + rest, base + k) == AsRead(ks, [rx[k..]] + rest, base)
    decreases |ks|
  {
    hide Keystroke, KeyAsRead;
    if ks != [] {
      var n := |Keystroke(ks[0])|;
      CutShift(rx, rest, k, base + 1);
      CutShift(rx, rest, k, base + 2);
      AsReadShift(ks[1..], rx, rest, k, base + n);
      assert base + n + k == base + k + n;
    }
  }

  lemma CutShift(rx: bytes, rest: seq<bytes>, k: nat, pos: nat)
    requires k <= |rx|
    ensures CutAt([rx] + rest, pos + k) == CutAt([rx[k..]] + rest, pos)
  {
    assert ([rx] + rest)[1..] == rest && ([rx[k..]] + rest)[1..] == rest;
  }

  lemma {:induction false} AsReadNext(ks: seq<Key>, rest: seq<bytes>, base: nat)
    requires AreSent(ks)
    ensures AsRead(ks, [[]] + rest, base) == AsRead(ks, rest, base)
    decreases |ks|
  {
    hide Keystroke, KeyAsRead;
    assert ([[]] + rest)[1..] == rest;
    if ks != [] {
      AsReadNext(ks[1..], rest, base + |Keystroke(ks[0])|);
    }
  }

  lemma {:induction false} NothingRead(rxs: seq<bytes>)
    requires Joined(rxs) == []
    ensures KeysOfReads(rxs) == []
  {
    if rxs != [] {
      assert |rxs[0]| <= |Joined(rxs)|;
      NothingRead(rxs[1..]);
    }
  }

  lemma StrokeShape(key: Key)
    requires IsSent(key)
    ensures var st := Keystroke(key);
            if IsArrow(key) then |st| == 3 && st[..2] == [ESC, OPEN] && IsPrintable(st[2]) else |st| == 1
  {
  }

  lemma ReadsUnfold(rx: bytes, rest: seq<bytes>)
    ensures KeysOfReads([rx] + rest) == KeysOf(rx) + KeysOfReads(rest)
    ensures Joined([rx] + rest) == rx + Joined(rest)
  {
    assert ([rx] + rest)[1..] == rest;
  }

  // Main result: however a stream of keystrokes is cut into reads, it is decoded to the keys
  // sent, but for the arrows that are cut.
  lemma {:induction false} ReadsDecode(rxs: seq<bytes>, ks: seq<Key>)
    requires AreSent(ks) && Joined(rxs) == Strokes(ks)
    ensures KeysOfReads(rxs) == AsRead(ks, rxs, 0)
    decreases |Joined(rxs)|, |rxs|
  {
    if ks == [] {
      NothingRead(rxs);
    } else {
      StrokeShape(ks[0]);
      var rx, rest := rxs[0], rxs[1..];
      assert rxs == [rx] + rest;
      hide Keystroke, KeysOf, KeysOfReads, AsRead;
      ReadsUnfold(rx, rest);
      if rx == [] {
        assert KeysOf([]) == [] by { KeysOfNone(); }
        Unit(Joined(rest));
        Unit(KeysOfReads(rest));
        ReadsDecode(rest, ks);
        AsReadNext(ks, rest, 0);
      } else if |Keystroke(ks[0])| <= |rx| {
        WholeStroke(rx, rest, ks);
        ReadsDecode([rx[|Keystroke(ks[0])|..]] + rest, ks[1..]);
      } else {
        CutStroke(rx, rest, ks);
        ReadsDecode(rest, Letters(ks, |rx|) + ks[1..]);
      }
    }
  }

  lemma KeysOfNone()
    ensures KeysOf([]) == [] && KeysOfReads([]) == []
  {
  }

  lemma AsReadCons(ks: seq<Key>, rxs: seq<bytes>, base: nat)
    requires AreSent(ks) && ks != []
    ensures AsRead(ks, rxs, base) ==
            KeyAsRead(ks[0], IsCut(ks[0], rxs, base)) + AsRead(ks[1..], rxs, base + |Keystroke(ks[0])|)
  {
  }

  // Two ways of taking a text apart.
  lemma Align(a: bytes, b: bytes, c: bytes, d: bytes)
    requires a + b == c + d && |c| <= |a|
    ensures a[..|c|] == c && a == c + a[|c|..] && d == a[|c|..] + b
  {
    assert c == (c + d)[..|c|] == (a + b)[..|c|];
    assert d == (c + d)[|c|..] == (a + b)[|c|..];
  }

  lemma NotCut(key: Key, rx: bytes, rest: seq<bytes>)
    requires IsSent(key) && |Keystroke(key)| <= |rx|
    ensures KeyAsRead(key, IsCut(key, [rx] + rest, 0)) == [key]
  {
    StrokeShape(key);
    hide Keystroke;
    assert ([rx] + rest)[0] == rx;
  }

  // The first key lies within the first read.
  lemma WholeKeys(key: Key, rx: bytes, rest: seq<bytes>)
    requires IsSent(key)
    ensures KeysOfReads([Keystroke(key) + rx] + rest) == [key] + KeysOfReads([rx] + rest)
  {
    hide Keystroke, KeysOf, KeysOfReads;
    ReadsUnfold(Keystroke(key) + rx, rest);
    ReadsUnfold(rx, rest);
    KeysHead(key, rx);
    Assoc([key], KeysOf(rx), KeysOfReads(rest));
  }

  lemma WholeAsRead(ks: seq<Key>, rx: bytes, rest: seq<bytes>)
    requires AreSent(ks) && ks != []
    ensures AsRead(ks, [Keystroke(ks[0]) + rx] + rest, 0) == [ks[0]] + AsRead(ks[1..], [rx] + rest, 0)
  {
    hide Keystroke, AsRead, KeyAsRead;
    var st := Keystroke(ks[0]);
    NotCut(ks[0], st + rx, rest);
    AsReadCons(ks, [st + rx] + rest, 0);
    AsReadShift(ks[1..], st + rx, rest, |st|, 0);
    DropHead(st, rx);
  }

  lemma WholeStroke(rx: bytes, rest: seq<bytes>, ks: seq<Key>)
    requires AreSent(ks) && ks != [] && |Keystroke(ks[0])| <= |rx|
    requires rx + Joined(rest) == Strokes(ks)
    ensures var rx' := rx[|Keystroke(ks[0])|..];
            && |Joined([rx'] + rest)| < |rx + Joined(rest)|
            && Joined([rx'] + rest) == Strokes(ks[1..])
            && KeysOfReads([rx] + rest) == [ks[0]] + KeysOfReads([rx'] + rest)
            && AsRead(ks, [rx] + rest, 0) == [ks[0]] + AsRead(ks[1..], [rx'] + rest, 0)
  {
    StrokeShape(ks[0]);
    var st, more := Keystroke(ks[0]), Strokes(ks[1..]);
    assert rx + Joined(rest) == st + more;
    hide Keystroke, KeysOf, KeysOfReads, AsRead, Joined, Strokes, IsSent, AreSent;
    var rx' := rx[|st|..];
    Align(rx, Joined(rest), st, more);
    ReadsUnfold(rx', rest);
    WholeKeys(ks[0], rx', rest);
    WholeAsRead(ks, rx', rest);
  }

  // What is left of an arrow of which the first n bytes were in an earlier read.
  function Letters(ks: seq<Key>, n: nat): seq<Key>
    requires ks != [] && IsArrow(ks[0]) && (n == 1 || n == 2)
  {
    var letter := Insert(Keystroke(ks[0])[2]);
    if n == 1 then [Insert(OPEN), letter] else [letter]
  }

  lemma LetterStrokes(b: byte, more: seq<Key>)
    requires IsPrintable(b) && AreSent(more)
    ensures AreSent([Insert(b)] + more) && Strokes([Insert(b)] + more) == [b] + Strokes(more)
  {
    DropHead([Insert(b)], more);
  }

  lemma LettersStrokes(ks: seq<Key>, n: nat)
    requires AreSent(ks) && ks != [] && IsArrow(ks[0]) && (n == 1 || n == 2)
    ensures AreSent(Letters(ks, n) + ks[1..])
    ensures Strokes(Letters(ks, n) + ks[1..]) == Keystroke(ks[0])[n..] + Strokes(ks[1..])
  {
    hide Strokes, Keystroke;
    StrokeShape(ks[0]);
    var more, st := ks[1..], Keystroke(ks[0]);
    LetterStrokes(st[2], more);
    if n == 1 {
      LetterStrokes(OPEN, [Insert(st[2])] + more);
      assert Letters(ks, 1) + more == [Insert(OPEN)] + ([Insert(st[2])] + more);
      assert st[1] == st[..2][1] && st[1..] == [OPEN] + [st[2]];
      Assoc([OPEN], [st[2]], Strokes(more));
    } else {
      assert st[2..] == [st[2]];
    }
  }

  // Single letters are never cut.
  lemma LetterRead(l: Key, more: seq<Key>, rxs: seq<bytes>, base: nat)
    requires l.Insert? && IsSent(l) && AreSent(more)
    ensures AreSent([l] + more) && AsRead([l] + more, rxs, base) == [l] + AsRead(more, rxs, base + 1)
  {
    DropHead([l], more);
    AsReadCons([l] + more, rxs, base);
  }

  lemma LettersRead(ks: seq<Key>, n: nat, rxs: seq<bytes>)
    requires AreSent(ks) && ks != [] && IsArrow(ks[0]) && (n == 1 || n == 2)
    ensures AreSent(Letters(ks, n) + ks[1..])
    ensures AsRead(Letters(ks, n) + ks[1..], rxs, 0) == Letters(ks, n) + AsRead(ks[1..], rxs, 3 - n)
  {
    hide AsRead;
    var more := ks[1..];
    var l := Insert(Keystroke(ks[0])[2]);
    StrokeShape(ks[0]);
    LetterRead(l, more, rxs, 2 - n);
    if n == 1 {
      assert Letters(ks, n) == [Insert(OPEN)] + [l];
      LetterRead(Insert(OPEN), [l] + more, rxs, 0);
      Assoc([Insert(OPEN)], [l], more);
      Assoc([Insert(OPEN)], [l], AsRead(more, rxs, 2));
    }
  }

  // What the two sides make of an arrow whose first n bytes end a read.
  lemma CutKeys(key: Key, n: nat, rest: seq<bytes>)
    requires IsSent(key) && IsArrow(key) && (n == 1 || n == 2)
    ensures KeysOfReads([Keystroke(key)[..n]] + rest) ==
            (if n == 1 then [Ignored] else [Ignored, Insert(OPEN)]) + KeysOfReads(rest)
  {
    StrokeShape(key);
    hide Keystroke, KeysOf, KeysOfReads;
    assert Keystroke(key)[..n] == Keystroke(key)[..2][..n];
    CutEnds(n);
    ReadsUnfold(Keystroke(key)[..n], rest);
  }

  lemma CutAsRead(ks: seq<Key>, n: nat, rest: seq<bytes>)
    requires AreSent(ks) && ks != [] && IsArrow(ks[0]) && (n == 1 || n == 2)
    ensures AsRead(ks, [Keystroke(ks[0])[..n]] + rest, 0) ==
            [Ignored, Insert(OPEN), Insert(Keystroke(ks[0])[2])] + AsRead(ks[1..], rest, 3 - n)
  {
    StrokeShape(ks[0]);
    hide Keystroke, AsRead;
    var rx := Keystroke(ks[0])[..n];
    assert ([rx] + rest)[0] == rx;
    AsReadCons(ks, [rx] + rest, 0);
    assert rx[n..] == [];
    AsReadShift(ks[1..], rx, rest, n, 3 - n);
    AsReadNext(ks[1..], rest, 3 - n);
  }

  lemma CutLetters(ks: seq<Key>, n: nat)
    requires ks != [] && IsArrow(ks[0]) && (n == 1 || n == 2)
    ensures (if n == 1 then [Ignored] else [Ignored, Insert(OPEN)]) + Letters(ks, n) ==
            [Ignored, Insert(OPEN), Insert(Keystroke(ks[0])[2])]
  {
    hide Keystroke;
  }

  // The first read ends inside the first key, an arrow.
  lemma CutStroke(rx: bytes, rest: seq<bytes>, ks: seq<Key>)
    requires AreSent(ks) && ks != [] && 0 < |rx| < |Keystroke(ks[0])|
    requires rx + Joined(rest) == Strokes(ks)
    ensures IsArrow(ks[0]) && (|rx| == 1 || |rx| == 2)
    ensures var ks' := Letters(ks, |rx|) + ks[1..];
            && AreSent(ks') && Joined(rest) == Strokes(ks')
            && (KeysOfReads(rest) == AsRead(ks', rest, 0) ==>
                  KeysOfReads([rx] + rest) == AsRead(ks, [rx] + rest, 0))
  {
    StrokeShape(ks[0]);
    var st, n, more := Keystroke(ks[0]), |rx|, Strokes(ks[1..]);
    assert rx + Joined(rest) == st + more;
    hide Keystroke, KeysOf, KeysOfReads, AsRead, Joined, Strokes, Letters, IsSent, KeyAsRead, CutAt, IsCut;
    Align(st, more, rx, Joined(rest));
    LettersStrokes(ks, n);
    LettersRead(ks, n, rest);
    CutKeys(ks[0], n, rest);
    CutAsRead(ks, n, rest);
    CutLetters(ks, n);
    Assoc(if n == 1 then [Ignored] else [Ignored, Insert(OPEN)], Letters(ks, n), AsRead(ks[1..], rest, 3 - n));
  }

  lemma {:induction false} WholeIffSame(ks: seq<Key>, rxs: seq<bytes>, base: nat)
    requires AreSent(ks)
    ensures |AsRead(ks, rxs, base)| >= |ks|
    ensures AsRead(ks, rxs, base) == ks <==> IsWhole(ks, rxs, base)
    ensures |AsRead(ks, rxs, base)| == |ks| ==> IsWhole(ks, rxs, base)
    decreases |ks|
  {
    hide Keystroke, IsCut;
    if ks != [] {
      WholeIffSame(ks[1..], rxs, base + |Keystroke(ks[0])|);
      assert ks == [ks[0]] + ks[1..];
    }
  }

  // The keys sent are the keys decoded if and only if no read ends inside an arrow.
  lemma DecodedIffWhole(rxs: seq<bytes>, ks: seq<Key>)
    requires AreSent(ks) && Joined(rxs) == Strokes(ks)
    ensures KeysOfReads(rxs) == ks <==> IsWhole(ks, rxs, 0)
  {
    ReadsDecode(rxs, ks);
    WholeIffSame(ks, rxs, 0);
  }

  // The effect on the editor: it runs on the keys as decoded, so on the keys sent when no
  // arrow is cut, whichever way the stream was cut otherwise.
  lemma SessionOfStrokes(c: Context, e: Editor, rxs: seq<bytes>, ks: seq<Key>)
    requires EditorOk(c, e) && AreSent(ks) && Joined(rxs) == Strokes(ks)
    ensures Session(c, e, rxs) == RunKeys(c, e, AsRead(ks, rxs, 0))
    ensures IsWhole(ks, rxs, 0) ==> Session(c, e, rxs) == RunKeys(c, e, ks)
  {
    SessionIsKeys(c, e, rxs);
    ReadsDecode(rxs, ks);
    WholeIffSame(ks, rxs, 0);
  }

  // ----- The bytes of each key, and what each key does over whole runs -----

  // The keys at the head of a read, byte by byte: 27 91 and a letter from 65 to 68 is an
  // arrow; every other byte is a key of its own, an escape byte (27) one that is ignored.
  lemma KeysOfBytes(b: byte, rest: bytes)
    requires b == 27 ==> !(|rest| >= 2 && rest[0] == 91 && 65 <= rest[1] <= 68)
    ensures KeysOf([b] + rest) ==
            [if b == 10 || b == 13 then Enter
             else if b == 8 || b == 127 then Rubout
             else if b == 9 then Tab
             else if b == 3 then Interrupt
             else if b == 4 then EndOfInput
             else if 32 <= b <= 126 then Insert(b)
             else Ignored] + KeysOf(rest)
  {
    hide KeysOf;
    HeadKey([b] + rest);
    DropHead([b], rest);
  }

  lemma KeysOfArrows(rest: bytes)
    ensures KeysOf([27, 91, 65] + rest) == [Up] + KeysOf(rest)
    ensures KeysOf([27, 91, 66] + rest) == [Down] + KeysOf(rest)
    ensures KeysOf([27, 91, 67] + rest) == [Right] + KeysOf(rest)
    ensures KeysOf([27, 91, 68] + rest) == [Left] + KeysOf(rest)
  {
    hide KeysOf;
    HeadArrow(65, rest);
    HeadArrow(66, rest);
    HeadArrow(67, rest);
    HeadArrow(68, rest);
  }

  lemma HeadArrow(letter: byte, rest: bytes)
    requires 65 <= letter <= 68
    ensures KeysOf([27, 91, letter] + rest) ==
            [if letter == 65 then Up else if letter == 66 then Down else if letter == 67 then Right else Left] +
            KeysOf(rest)
  {
    hide KeysOf;
    var rx := [27, 91, letter] + rest;
    HeadKey(rx);
    DropHead([27, 91, letter], rest);
    assert rx[0] == 27 && rx[1] == 91 && rx[2] == letter;
  }

  lemma HeadKey(rx: bytes)
    requires rx != []
    ensures KeysOf(rx) == [Decode(rx).0] + KeysOf(rx[Decode(rx).1..])
  {
  }

  // The keys that end the line or do nothing, and what they write: exit, ^C and line ends.
  lemma EndKeys(c: Context, e: Editor)
    requires EditorOk(c, e)
    ensures RunKeys(c, e, [Enter]) == Result(e, [13, 10], Submitted)
    ensures RunKeys(c, e, [Interrupt]) == Result(e, [94, 67, 13, 10], Submitted)
    ensures RunKeys(c, e, [EndOfInput]) ==
            if Text(e.z) == [] then Result(e, [101, 120, 105, 116, 13, 10], Exited) else Result(e, [], Editing)
    ensures RunKeys(c, e, [Ignored]) == Result(e, [], Editing)
  {
    OneKey(c, e, Enter);
    OneKey(c, e, Interrupt);
    OneKey(c, e, EndOfInput);
    OneKey(c, e, Ignored);
    hide RunKeys;
  }

  // Keys at the edge of the line, or of the buffer, change nothing.
  lemma EdgeKeys(c: Context, e: Editor, b: byte)
    requires EditorOk(c, e)
    ensures e.z.after == [] ==> RunKeys(c, e, [Right]) == Result(e, [], Editing)
    ensures e.z.before == [] ==> RunKeys(c, e, [Left]) == Result(e, [], Editing)
    ensures e.z.before == [] ==> RunKeys(c, e, [Rubout]) == Result(e, [], Editing)
    ensures |Text(e.z)| == 255 ==> RunKeys(c, e, [Insert(b)]) == Result(e, [], Editing)
  {
    OneKey(c, e, Right);
    OneKey(c, e, Left);
    OneKey(c, e, Rubout);
    OneKey(c, e, Insert(b));
    hide RunKeys;
  }

  // A tab makes the line its completion, cut to 255 bytes, with the cursor where completion
  // puts it, or at the end.
  lemma TabCompletes(c: Context, e: Editor)
    requires EditorOk(c, e)
    ensures var done := Complete.Completed(Text(e.z), |e.z.before|, c.ls);
            var r := RunKeys(c, e, [Tab]);
            && r.status == Editing && r.e.nav == e.nav
            && Text(r.e.z) == done.line[..Min(|done.line|, 255)]
            && |r.e.z.before| == Min(done.cursor, Min(|done.line|, 255))
  {
    hide RunKeys, Complete.Completed, Emit;
    OneKey(c, e, Tab);
  }

  function Repeat(key: Key, k: nat): (r: seq<Key>)
    ensures |r| == k && forall i :: 0 <= i < k ==> r[i] == key
  {
    seq(k, _ => key)
  }

  // Running one key more.
  lemma RunNext(c: Context, e: Editor, ks: seq<Key>, key: Key)
    requires EditorOk(c, e) && RunKeys(c, e, ks).status == Editing
    ensures var was := RunKeys(c, e, ks);
            var now := RunKeys(c, e, ks + [key]);
            EditorOk(c, was.e) && now.e == Apply(c, was.e, key) && now.status == StatusOf(was.e, key)
  {
    hide Apply, Emit, StatusOf, RunKeys;
    RunKeysConcat(c, e, ks, [key]);
    OneKey(c, RunKeys(c, e, ks).e, key);
  }

  // The number of steps back in a history of w entries that the up and down keys have made.
  function Steps(ks: seq<Key>, w: nat): (n: nat)
    ensures n <= w
  {
    if ks == [] then 0
    else
      var n := Steps(ks[..|ks| - 1], w);
      match ks[|ks| - 1]
      case Up => if n < w then n + 1 else n
      case Down => if n > 0 then n - 1 else 0
      case _ => n
  }

  lemma NavAfter(c: Context, e: Editor, key: Key)
    requires EditorOk(c, e)
    ensures Apply(c, e, key).nav ==
            match key
            case Up => if e.nav + 1 < |History.Window(c.log)| then e.nav + 1 else e.nav
            case Down => if e.nav > 0 then e.nav - 1 else -1
            case _ => e.nav
  {
    hide Completion, Load, LoadEntry;
  }

  lemma {:induction false} StepsAre(c: Context, ks: seq<Key>)
    requires RunKeys(c, FRESH, ks).status == Editing
    ensures RunKeys(c, FRESH, ks).e.nav == Steps(ks, |History.Window(c.log)|) - 1
    decreases |ks|
  {
    hide RunKeys, Apply, Emit, StatusOf;
    if ks == [] {
      NoKeys(c, FRESH);
    } else {
      var front := ks[..|ks| - 1];
      assert ks == front + [ks[|ks| - 1]];
      RunKeysConcat(c, FRESH, front, [ks[|ks| - 1]]);
      StepsAre(c, front);
      RunNext(c, FRESH, front, ks[|ks| - 1]);
      NavAfter(c, RunKeys(c, FRESH, front).e, ks[|ks| - 1]);
    }
  }

  lemma UpKey(c: Context, e: Editor)
    requires EditorOk(c, e)
    ensures var window := History.Window(c.log);
            && StatusOf(e, Up) == Editing
            && Apply(c, e, Up) ==
               if e.nav + 1 < |window| then Editor(Recalled(window[|window| - (e.nav + 2)]), e.nav + 1) else e
  {
  }

  lemma DownKey(c: Context, e: Editor)
    requires EditorOk(c, e)
    ensures var window := History.Window(c.log);
            && StatusOf(e, Down) == Editing
            && Apply(c, e, Down) ==
               if e.nav > 0 then Editor(Recalled(window[|window| - e.nav]), e.nav - 1) else Editor(Zip([], []), -1)
  {
  }

  // Main result: after any keys, up shows the next older entry, if there is one, and down the
  // next newer one; when there is none, down empties the line.
  lemma ArrowsAfter(c: Context, ks: seq<Key>)
    requires RunKeys(c, FRESH, ks).status == Editing
    ensures var window := History.Window(c.log);
            var n := Steps(ks, |window|);
            var up, down := RunKeys(c, FRESH, ks + [Up]), RunKeys(c, FRESH, ks + [Down]);
            && up.status == Editing && down.status == Editing
            && up.e.z == (if n < |window| then Recalled(window[|window| - (n + 1)]) else RunKeys(c, FRESH, ks).e.z)
            && down.e.z == if n > 1 then Recalled(window[|window| - (n - 1)]) else Zip([], [])
  {
    hide RunKeys, Apply, Emit, StatusOf, Recalled;
    var e := RunKeys(c, FRESH, ks).e;
    StepsAre(c, ks);
    RunNext(c, FRESH, ks, Up);
    RunNext(c, FRESH, ks, Down);
    UpKey(c, e);
    DownKey(c, e);
  }

  // A line of the history with the cursor at its end.
  function Recalled(entry: bytes): Zip {
    Zip(entry[..Min(|entry|, 255)], [])
  }

  // A down key that finds no entry starts the line anew, whatever has been typed.
  lemma DownClears(c: Context, ks: seq<Key>)
    requires RunKeys(c, FRESH, ks).status == Editing && RunKeys(c, FRESH, ks).e.nav <= 0
    ensures RunKeys(c, FRESH, ks + [Down]).e == FRESH && RunKeys(c, FRESH, ks + [Down]).status == Editing
  {
    hide RunKeys, Apply, Emit, StatusOf;
    RunNext(c, FRESH, ks, Down);
    DownKey(c, RunKeys(c, FRESH, ks).e);
  }

  // The editor that shows the n-th latest entry, or nothing yet.
  function ShowingBack(c: Context, n: nat): Editor
    requires n <= |History.Window(c.log)|
  {
    if n == 0 then FRESH else Editor(Recalled(History.Window(c.log)[|History.Window(c.log)| - n]), n - 1)
  }

  lemma UpFrom(c: Context, n: nat)
    requires n <= |History.Window(c.log)| && EditorOk(c, ShowingBack(c, n))
    ensures StatusOf(ShowingBack(c, n), Up) == Editing
    ensures Apply(c, ShowingBack(c, n), Up) == ShowingBack(c, if n < |History.Window(c.log)| then n + 1 else n)
  {
    UpKey(c, ShowingBack(c, n));
    hide Apply, Recalled, History.Window;
  }

  lemma DownFrom(c: Context, n: nat)
    requires n <= |History.Window(c.log)| && EditorOk(c, ShowingBack(c, n))
    ensures StatusOf(ShowingBack(c, n), Down) == Editing
    ensures Apply(c, ShowingBack(c, n), Down) == ShowingBack(c, if n > 0 then n - 1 else 0)
  {
    DownKey(c, ShowingBack(c, n));
    hide Apply, Recalled, History.Window;
  }

  // Up keys alone reach every entry of the window, and stay at the oldest.
  lemma {:induction false} UpsReach(c: Context, k: nat)
    ensures var r := RunKeys(c, FRESH, Repeat(Up, k));
            r.status == Editing && r.e == ShowingBack(c, Min(k, |History.Window(c.log)|))
    decreases k
  {
    hide RunKeys, Apply, Emit, StatusOf, ShowingBack, History.Window;
    if k == 0 {
      NoKeys(c, FRESH);
      ShowsNothing(c);
    } else {
      UpsReach(c, k - 1);
      assert Repeat(Up, k) == Repeat(Up, k - 1) + [Up];
      RunNext(c, FRESH, Repeat(Up, k - 1), Up);
      UpFrom(c, Min(k - 1, |History.Window(c.log)|));
    }
  }

  lemma ShowsNothing(c: Context)
    ensures ShowingBack(c, 0) == FRESH
  {
  }

  // Down keys go back the same way, and then leave an empty line.
  lemma {:induction false} UpsAndDowns(c: Context, k: nat, j: nat)
    ensures var n := Min(k, |History.Window(c.log)|) - j;
            var r := RunKeys(c, FRESH, Repeat(Up, k) + Repeat(Down, j));
            && r.status == Editing
            && r.e == if n <= 0 then FRESH
                      else Editor(Recalled(History.Window(c.log)[|History.Window(c.log)| - n]), n - 1)
  {
    BackAfter(c, k, j);
    hide RunKeys, Recalled;
  }

  lemma {:induction false} BackAfter(c: Context, k: nat, j: nat)
    ensures var n := Min(k, |History.Window(c.log)|) - j;
            var r := RunKeys(c, FRESH, Repeat(Up, k) + Repeat(Down, j));
            r.status == Editing && r.e == ShowingBack(c, if n <= 0 then 0 else n)
    decreases j
  {
    hide RunKeys, Apply, Emit, StatusOf, ShowingBack, History.Window;
    if j == 0 {
      UpsReach(c, k);
      Unit(Repeat(Up, k));
      assert Repeat(Down, 0) == [];
    } else {
      BackAfter(c, k, j - 1);
      var n := Min(k, |History.Window(c.log)|) - (j - 1);
      assert Repeat(Down, j) == Repeat(Down, j - 1) + [Down];
      Assoc(Repeat(Up, k), Repeat(Down, j - 1), [Down]);
      RunNext(c, FRESH, Repeat(Up, k) + Repeat(Down, j - 1), Down);
      DownFrom(c, if n <= 0 then 0 else n);
    }
  }
}
