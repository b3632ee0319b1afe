// What the pipeline parser computes: it inverts printing, for every sentence of the command
// grammar and every choice of blanks, and on lines without operators it agrees with the
// tokenizer.
module Grammar {
  import opened Bytes
  import opened Io
  import opened Parse

  // ----- Sentences and their printed form -----

  // A word or a redirection, with the blanks in front of it.
  datatype Item =
    | Word(pre: bytes, w: bytes)
    | Redirect(pre: bytes, op: byte, gap: bytes, target: bytes)

  // A pipeline segment and the blanks and bars behind it.
  datatype Seg = Seg(items: seq<Item>, after: bytes)

  // The blanks and bars in front, the segments, and what is left behind the eighth of them.
  datatype Sentence = Sentence(lead: bytes, segs: seq<Seg>, tail: bytes)

  function Body(it: Item): bytes {
    match it
    case Word(_, w) => w
    case Redirect(_, op, gap, target) => [op] + gap + target
  }

  function ItemsText(items: seq<Item>): bytes {
    if items == [] then [] else items[0].pre + Body(items[0]) + ItemsText(items[1..])
  }

  function SegsText(segs: seq<Seg>): bytes {
    if segs == [] then [] else ItemsText(segs[0].items) + segs[0].after + SegsText(segs[1..])
  }

  function SentenceText(t: Sentence): bytes {
    t.lead + (SegsText(t.segs) + t.tail)
  }

  predicate AllBlank(b: bytes) {
    forall k :: 0 <= k < |b| ==> IsBlank(b[k])
  }

  predicate AllSep(b: bytes) {
    forall k :: 0 <= k < |b| ==> IsSep(b[k])
  }

  predicate IsPlain(w: bytes) {
    w != [] && forall k :: 0 <= k < |w| ==> !IsSep(w[k])
  }

  predicate ItemOk(it: Item) {
    AllBlank(it.pre) &&
    match it
    case Word(_, w) => IsPlain(w) && w[0] != LESS && w[0] != GREATER
    case Redirect(_, op, gap, target) =>
      (op == LESS || op == GREATER) && AllBlank(gap) && (target == [] || IsPlain(target))
  }

  // An operator without a target ends its segment.
  predicate Dangles(it: Item) {
    it.Redirect? && it.target == []
  }

  // Items are separated by blanks; n words came before.
  predicate ItemsOk(items: seq<Item>, n: nat) {
    items == [] ||
    (n < MAX_ARGS && ItemOk(items[0]) &&
     ItemsOk(items[1..], if items[0].Word? then n + 1 else n) &&
     (|items| > 1 ==> items[1].pre != [] && !Dangles(items[0])))
  }

  // More can only follow a segment behind a bar, or behind its 16th word.
  predicate EndOk(seg: Seg, more: bool)
    requires seg.items != []
  {
    && AllSep(seg.after)
    && (more ==> PIPE in seg.after || (|Words(seg.items)| == MAX_ARGS && seg.after != []))
    && (Dangles(Last(seg.items)) ==> seg.after == [] || seg.after[0] == PIPE)
  }

  // A segment starts with an item.
  predicate SegsOk(segs: seq<Seg>, more: bool) {
    segs == [] ||
    (segs[0].items != [] && segs[0].items[0].pre == [] && ItemsOk(segs[0].items, 0) &&
     EndOk(segs[0], |segs| > 1 || more) && SegsOk(segs[1..], more))
  }

  predicate SentenceOk(t: Sentence) {
    && AllSep(t.lead) && |t.segs| <= MAX_SEGMENTS && SegsOk(t.segs, t.tail != [])
    && (t.tail == [] || (|t.segs| == MAX_SEGMENTS && !IsSep(t.tail[0])))
  }

  // ----- Their meaning -----

  function Words(items: seq<Item>): seq<bytes> {
    if items == [] then []
    else (if items[0].Word? then [items[0].w] else []) + Words(items[1..])
  }

  function SegWords(segs: seq<Seg>): seq<seq<bytes>> {
    if segs == [] then [] else [Words(segs[0].items)] + SegWords(segs[1..])
  }

  // The last target of the given operator, or what it was before.
  function Target(items: seq<Item>, op: byte, before: bytes): bytes {
    if items == [] then before
    else Target(items[1..], op, if items[0].Redirect? && items[0].op == op then items[0].target else before)
  }

  function SegTarget(segs: seq<Seg>, op: byte, before: bytes): bytes {
    if segs == [] then before else SegTarget(segs[1..], op, Target(segs[0].items, op, before))
  }

  function DropAmpersand(words: seq<seq<bytes>>): seq<seq<bytes>> {
    if EndsInAmpersand(words) then Front(words) + [Front(Last(words))] else words
  }

  predicate EndsInAmpersand(words: seq<seq<bytes>>) {
    words != [] && Last(words) != [] && Last(Last(words)) == [AMP]
  }

  // A last word & (38) behind all others is no word; any other & is one.
  lemma AmpersandRule(front: seq<seq<bytes>>, words: seq<bytes>, w: bytes)
    ensures var all := front + [words + [w]];
            && (EndsInAmpersand(all) <==> w == [38])
            && DropAmpersand(all) == if w == [38] then front + [words] else all
    ensures !EndsInAmpersand(front + [[]]) && DropAmpersand(front + [[]]) == front + [[]]
  {
    var all := front + [words + [w]];
    assert Front(all) == front && Front(words + [w]) == words;
  }

  // The last redirection by an operator gives its target.
  lemma {:induction false} LastTargetWins(items: seq<Item>, it: Item, op: byte, before: bytes)
    ensures Target(items + [it], op, before) ==
            if it.Redirect? && it.op == op then it.target else Target(items, op, before)
    decreases |items|
  {
    if items == [] {
      assert (items + [it])[1..] == [];
    } else {
      assert (items + [it])[1..] == items[1..] + [it];
      LastTargetWins(items[1..], it, op, if items[0].Redirect? && items[0].op == op then items[0].target else before);
    }
  }

  function SegTexts(line: bytes, segs: seq<seq<Slice>>): (r: seq<seq<bytes>>)
    ensures |r| == |segs|
  {
    seq(|segs|, k requires 0 <= k < |segs| => Texts(line, segs[k]))
  }

  // ----- Scanning over known text -----

  lemma BlanksOver(line: bytes, i: nat, b: bytes, rest: bytes)
    requires i <= |line| && line[i..] == b + rest && AllBlank(b)
    requires rest == [] || !IsBlank(rest[0])
    ensures i + |b| <= |line| && SkipBlanks(line, i) == i + |b| && line[i + |b|..] == rest
  {
    var j := SkipBlanks(line, i);
    assert forall k :: i <= k < |line| ==> line[k] == (b + rest)[k - i];
    assert line[i + |b|..] == line[i..][|b|..];
  }

  lemma WordOver(line: bytes, i: nat, w: bytes, rest: bytes)
    requires i <= |line| && line[i..] == w + rest && IsPlain(w)
    requires rest == [] || IsSep(rest[0])
    ensures i + |w| <= |line| && WordEnd(line, i, true) == i + |w| && line[i + |w|..] == rest
    ensures Text(line, Slice(i, |w|)) == w
  {
    var j := WordEnd(line, i, true);
    assert forall k :: i <= k < |line| ==> line[k] == (w + rest)[k - i];
    assert line[i + |w|..] == line[i..][|w|..];
    assert line[i..i + |w|] == line[i..][..|w|];
  }

  lemma SepsOver(line: bytes, i: nat, end: nat)
    requires i <= end <= |line| && forall k :: i <= k < end ==> IsSep(line[k])
    requires end == |line| || !IsSep(line[end])
    ensures SkipSeps(line, i) == end
  {
    var j := SkipSeps(line, i);
  }

  // ----- One item -----

  // How one item, followed by more, moves the parser from s to r.
  ghost predicate Takes(line: bytes, s: Progress, it: Item, r: Progress, more: bytes)
    requires r.i <= |line|
  {
    && line[r.i..] == more
    && Texts(line, r.args) == Texts(line, s.args) + Words([it])
    && Text(line, r.out) == Target([it], GREATER, Text(line, s.out))
    && Text(line, r.inn) == Target([it], LESS, Text(line, s.inn))
    && |r.args| == |s.args| + if it.Word? then 1 else 0
  }

  lemma OneItem(it: Item, op: byte, before: bytes)
    ensures Words([it]) == if it.Word? then [it.w] else []
    ensures Target([it], op, before) == if it.Redirect? && it.op == op then it.target else before
  {
    assert [it][1..] == [];
  }

  // What can follow an item.
  predicate Stop(it: Item, more: bytes) {
    more == [] || (IsSep(more[0]) && (Dangles(it) ==> more[0] == PIPE))
  }

  lemma ItemParses(line: bytes, s: Progress, it: Item, more: bytes)
    requires s.i < |line| && line[s.i..] == Body(it) + more && ItemOk(it)
    requires Stop(it, more)
    ensures !IsSep(line[s.i]) && Takes(line, s, it, TakeItem(line, s), more)
  {
    BodyStarts(it);
    assert line[s.i] == line[s.i..][0];
    if it.Word? {
      WordParses(line, s, it, more);
    } else {
      RedirectParses(line, s, it, more);
    }
  }

  lemma WordParses(line: bytes, s: Progress, it: Item, more: bytes)
    requires s.i < |line| && !IsSep(line[s.i]) && line[s.i..] == Body(it) + more && ItemOk(it)
    requires it.Word? && Stop(it, more)
    ensures Takes(line, s, it, TakeItem(line, s), more)
  {
    OneItem(it, GREATER, Text(line, s.out));
    OneItem(it, LESS, Text(line, s.inn));
    hide SkipBlanks, WordEnd, Text, Words, Target;
    WordOver(line, s.i, it.w, more);
    assert line[s.i] == line[s.i..][0] == it.w[0];
    assert Texts(line, s.args + [Slice(s.i, |it.w|)]) == Texts(line, s.args) + [it.w];
  }

  lemma OperatorOff(line: bytes, i: nat, op: byte, gap: bytes, target: bytes, more: bytes)
    requires i < |line| && line[i..] == [op] + gap + target + more
    ensures line[i] == op && line[i + 1..] == gap + (target + more)
  {
    assert line[i] == line[i..][0];
    assert line[i + 1..] == line[i..][1..];
  }

  lemma PlainStarts(w: bytes, more: bytes)
    requires IsPlain(w)
    ensures !IsBlank((w + more)[0])
  {
  }

  lemma RedirectScans(line: bytes, i: nat, it: Item, more: bytes)
    requires i < |line| && line[i..] == Body(it) + more && ItemOk(it)
    requires it.Redirect? && Stop(it, more)
    ensures var start := i + 1 + |it.gap|;
            var end := start + |it.target|;
            && line[i] == it.op && end <= |line| && line[end..] == more
            && SkipBlanks(line, i + 1) == start && WordEnd(line, start, true) == end
            && Text(line, Slice(start, |it.target|)) == it.target
  {
    hide SkipBlanks, WordEnd, Text, IsPlain, AllBlank, IsSep;
    OperatorOff(line, i, it.op, it.gap, it.target, more);
    AnyTargetScans(line, i + 1, it.gap, it.target, more);
  }

  lemma AnyTargetScans(line: bytes, i: nat, gap: bytes, target: bytes, more: bytes)
    requires i <= |line| && line[i..] == gap + (target + more) && AllBlank(gap)
    requires if target == [] then more == [] || more[0] == PIPE
             else IsPlain(target) && (more == [] || IsSep(more[0]))
    ensures var start := i + |gap|;
            var end := start + |target|;
            && end <= |line| && line[end..] == more
            && SkipBlanks(line, i) == start && WordEnd(line, start, true) == end
            && Text(line, Slice(start, |target|)) == target
  {
    hide SkipBlanks, WordEnd, Text, IsPlain, AllBlank, IsSep;
    if target == [] {
      Unit(more);
      NoTargetScans(line, i, gap, more);
    } else {
      TargetScans(line, i, gap, target, more);
    }
  }

  lemma TargetScans(line: bytes, i: nat, gap: bytes, target: bytes, more: bytes)
    requires i <= |line| && line[i..] == gap + (target + more) && AllBlank(gap) && IsPlain(target)
    requires more == [] || IsSep(more[0])
    ensures var start := i + |gap|;
            var end := start + |target|;
            && end <= |line| && line[end..] == more
            && SkipBlanks(line, i) == start && WordEnd(line, start, true) == end
            && Text(line, Slice(start, |target|)) == target
  {
    PlainStarts(target, more);
    hide SkipBlanks, WordEnd, Text, IsPlain, IsSep, AllBlank;
    BlanksOver(line, i, gap, target + more);
    WordOver(line, i + |gap|, target, more);
  }

  lemma NoTargetScans(line: bytes, i: nat, gap: bytes, more: bytes)
    requires i <= |line| && line[i..] == gap + more && AllBlank(gap) && (more == [] || more[0] == PIPE)
    ensures var start := i + |gap|;
            && start <= |line| && line[start..] == more
            && SkipBlanks(line, i) == start && WordEnd(line, start, true) == start
            && Text(line, Slice(start, 0)) == []
  {
    BlanksOver(line, i, gap, more);
    assert more != [] ==> line[i + |gap|] == more[0];
  }

  lemma RedirectParses(line: bytes, s: Progress, it: Item, more: bytes)
    requires s.i < |line| && !IsSep(line[s.i]) && line[s.i..] == Body(it) + more && ItemOk(it)
    requires it.Redirect? && Stop(it, more)
    ensures Takes(line, s, it, TakeItem(line, s), more)
  {
    hide SkipBlanks, WordEnd, Text, Texts, Words, Target, Body, IsSep, IsPlain, AllBlank;
    RedirectScans(line, s.i, it, more);
    OneItem(it, GREATER, Text(line, s.out));
    OneItem(it, LESS, Text(line, s.inn));
    Unit(Texts(line, s.args));
    var end := s.i + 1 + |it.gap| + |it.target|;
    var target := Slice(s.i + 1 + |it.gap|, |it.target|);
    assert TakeItem(line, s) == if it.op == GREATER then s.(i := end, out := target) else s.(i := end, inn := target);
  }

  // ----- One segment -----

  // The rest of a segment, then blanks and bars, then the next segment or nothing.
  lemma {:induction false} ItemsParse(line: bytes, s: Progress, items: seq<Item>, after: bytes, rest: bytes)
    requires s.i <= |line| && line[s.i..] == ItemsText(items) + (after + rest)
    requires ItemsOk(items, |s.args|) && AllSep(after)
    requires rest == [] ||
             (!IsSep(rest[0]) && (PIPE in after || (|s.args| + |Words(items)| == MAX_ARGS && after != [])))
    requires items != [] && Dangles(Last(items)) ==> after == [] || after[0] == PIPE
    ensures var r := TakeSegment(line, s);
            && Texts(line, r.args) == Texts(line, s.args) + Words(items)
            && Text(line, r.out) == Target(items, GREATER, Text(line, s.out))
            && Text(line, r.inn) == Target(items, LESS, Text(line, s.inn))
            && SkipSeps(line, r.i) == |line| - |rest|
    decreases |items|
  {
    hide SkipBlanks, WordEnd, Text, TakeItem, TakeSegment, SkipSeps, Texts, Body, ItemOk, ItemsOk, Words, Target, IsSep;
    if items == [] {
      Unit(after + rest);
      NoItems(Text(line, s.out));
      NoItems(Text(line, s.inn));
      SegmentCloses(line, s, after, rest);
      Unit(Texts(line, s.args));
    } else {
      var it := items[0];
      var more := ItemsText(items[1..]) + (after + rest);
      MoreStops(items, after, rest, |s.args|);
      ItemStep(line, s, it, more) by {
        assert line[s.i..] == it.pre + (Body(it) + more);
      }
      var r := TakeItem(line, s.(i := SkipBlanks(line, s.i)));
      WordsCons(items);
      WordsCount(items);
      ItemsParse(line, r, items[1..], after, rest);
      Assoc(Texts(line, s.args), Words([it]), Words(items[1..]));
      TargetCons(items, GREATER, Text(line, s.out));
      TargetCons(items, LESS, Text(line, s.inn));
    }
  }

  // The blanks in front of an item, and the item.
  lemma ItemStep(line: bytes, s: Progress, it: Item, more: bytes)
    requires s.i <= |line| && |s.args| < MAX_ARGS
    requires line[s.i..] == it.pre + (Body(it) + more) && ItemOk(it)
    requires Stop(it, more)
    ensures var j := SkipBlanks(line, s.i);
            && s.i < |line| && j < |line| && !IsSep(line[j])
            && Takes(line, s, it, TakeItem(line, s.(i := j)), more)
            && TakeSegment(line, s) == TakeSegment(line, TakeItem(line, s.(i := j)))
  {
    assert AllBlank(it.pre);
    hide SkipBlanks, WordEnd, Text, TakeItem, TakeSegment, Body, Takes, ItemOk, Words, Target;
    BodyStarts(it);
    assert line[s.i] == line[s.i..][0];
    assert line[s.i] == if it.pre == [] then Body(it)[0] else it.pre[0];
    assert line[s.i] != PIPE;
    BlanksOver(line, s.i, it.pre, Body(it) + more);
    var s1 := s.(i := s.i + |it.pre|);
    assert s1.i < |line|;
    ItemParses(line, s1, it, more);
    SegmentStep(line, s);
    assert s.(i := SkipBlanks(line, s.i)) == s1;
  }

  lemma TargetCons(items: seq<Item>, op: byte, before: bytes)
    requires items != []
    ensures Target(items, op, before) == Target(items[1..], op, Target([items[0]], op, before))
  {
    assert [items[0]][1..] == [];
  }

  lemma NoItems(before: bytes)
    ensures Words([]) == [] && Target([], GREATER, before) == before && Target([], LESS, before) == before
  {
  }

  lemma WordsCons(items: seq<Item>)
    requires items != []
    ensures Words(items) == Words([items[0]]) + Words(items[1..])
  {
    assert [items[0]][1..] == [];
  }

  lemma WordsCount(items: seq<Item>)
    requires items != []
    ensures |Words(items)| == |Words(items[1..])| + if items[0].Word? then 1 else 0
  {
  }

  lemma BodyStarts(it: Item)
    requires ItemOk(it)
    ensures Body(it) != [] && !IsSep(Body(it)[0])
  {
  }

  lemma MoreStops(items: seq<Item>, after: bytes, rest: bytes, n: nat)
    requires items != [] && ItemsOk(items, n) && AllSep(after) && (rest == [] || after != [])
    requires Dangles(Last(items)) ==> after == [] || after[0] == PIPE
    ensures ItemOk(items[0]) && n < MAX_ARGS && Stop(items[0], ItemsText(items[1..]) + (after + rest))
    ensures ItemsOk(items[1..], if items[0].Word? then n + 1 else n)
    ensures |items| > 1 ==> Last(items[1..]) == Last(items)
  {
    if |items| > 1 {
      assert items[1..][0] == items[1] && ItemOk(items[1]);
    }
  }

  lemma SegmentCloses(line: bytes, s: Progress, after: bytes, rest: bytes)
    requires s.i <= |line| && line[s.i..] == after + rest && AllSep(after)
    requires rest == [] || (!IsSep(rest[0]) && (PIPE in after || |s.args| == MAX_ARGS))
    ensures var r := TakeSegment(line, s);
            r.args == s.args && r.out == s.out && r.inn == s.inn && SkipSeps(line, r.i) == |line| - |rest|
  {
    hide SkipBlanks, SkipSeps;
    var end := s.i + |after|;
    assert forall k :: s.i <= k < |line| ==> line[k] == (after + rest)[k - s.i];
    assert end < |line| ==> line[end] == rest[0];
    SepsOver(line, s.i, end);
    if s.i < |line| && line[s.i] != PIPE && |s.args| < MAX_ARGS {
      var j := SkipBlanks(line, s.i);
      assert j <= end;
      if rest != [] {
        var k :| 0 <= k < |after| && after[k] == PIPE;
        assert line[s.i + k] == PIPE;
        assert j <= s.i + k;
      }
      SepsOver(line, j, end);
    }
  }

  // ----- All segments -----

  lemma {:induction false} SegsParse(line: bytes, done: seq<seq<Slice>>, s: Progress, segs: seq<Seg>, tail: bytes)
    requires s.i <= |line| && line[SkipSeps(line, s.i)..] == SegsText(segs) + tail
    requires SegsOk(segs, tail != []) && |done| + |segs| <= MAX_SEGMENTS
    requires tail == [] || (|done| + |segs| == MAX_SEGMENTS && !IsSep(tail[0]))
    ensures var p := TakeSegments(line, done, s);
            && SegTexts(line, p.segments) == SegTexts(line, done) + SegWords(segs)
            && Text(line, p.stdoutFile) == SegTarget(segs, GREATER, Text(line, s.out))
            && Text(line, p.stdinFile) == SegTarget(segs, LESS, Text(line, s.inn))
            && !p.background
    decreases |segs|
  {
    hide SkipSeps, Text, TakeSegment, Texts, Target, ItemsText, EndOk, ItemsOk, SegTexts;
    var j := SkipSeps(line, s.i);
    if segs == [] {
      Unit(tail);
      assert tail == [] ==> |line[j..]| == 0;
      Unit(SegTexts(line, done));
    } else {
      var seg := segs[0];
      var rest := SegsText(segs[1..]) + tail;
      RestStarts(segs, tail);
      Assoc(ItemsText(seg.items) + seg.after, SegsText(segs[1..]), tail);
      Assoc(ItemsText(seg.items), seg.after, rest);
      assert |line[j..]| > 0;
      NoTexts(line);
      ItemsParse(line, s.(i := j, args := []), seg.items, seg.after, rest);
      var r := TakeSegment(line, s.(i := j, args := []));
      assert line[|line| - |rest|..] == rest by {
        assert line[|line| - |rest|..] == line[j..][|line| - |rest| - j..];
      }
      SegsParse(line, done + [r.args], r, segs[1..], tail);
      Unit(Words(seg.items));
      SegTextsSnoc(line, done, r.args);
      Assoc(SegTexts(line, done), [Words(seg.items)], SegWords(segs[1..]));
    }
  }

  lemma SegTextsSnoc(line: bytes, done: seq<seq<Slice>>, args: seq<Slice>)
    ensures SegTexts(line, done + [args]) == SegTexts(line, done) + [Texts(line, args)]
  {
    hide Texts;
  }

  lemma NoTexts(line: bytes)
    ensures Texts(line, []) == []
  {
  }

  lemma {:induction false} RestStarts(segs: seq<Seg>, tail: bytes)
    requires segs != [] && SegsOk(segs, tail != []) && (tail == [] || !IsSep(tail[0]))
    ensures SegsOk(segs[1..], tail != [])
    ensures ItemsText(segs[0].items) != [] && !IsSep(ItemsText(segs[0].items)[0])
    ensures var seg, rest := segs[0], SegsText(segs[1..]) + tail;
            && AllSep(seg.after) && (Dangles(Last(seg.items)) ==> seg.after == [] || seg.after[0] == PIPE)
            && (rest == [] ||
                (!IsSep(rest[0]) && (PIPE in seg.after || (|Words(seg.items)| == MAX_ARGS && seg.after != []))))
  {
    BodyStarts(segs[0].items[0]);
    assert ItemsText(segs[0].items)[0] == Body(segs[0].items[0])[0];
    if |segs| > 1 {
      var next := segs[1..][0];
      BodyStarts(next.items[0]);
      assert ItemsText(next.items)[0] == Body(next.items[0])[0];
    }
  }

  // Main result: parsing the printed form of a sentence gives back its words, segment by
  // segment, its last redirect targets and its background flag.
  lemma ParseInvertsPrint(t: Sentence)
    requires SentenceOk(t)
    ensures var line := SentenceText(t);
            var p := Parsed(line);
            && SegTexts(line, p.segments) == DropAmpersand(SegWords(t.segs))
            && Text(line, p.stdoutFile) == SegTarget(t.segs, GREATER, [])
            && Text(line, p.stdinFile) == SegTarget(t.segs, LESS, [])
            && p.background == EndsInAmpersand(SegWords(t.segs))
  {
    hide SegsText, SegsOk, SegWords, SegTarget, TakeSegments;
    var line := SentenceText(t);
    TextStarts(t.segs, t.tail);
    SepsOver(line, 0, |t.lead|);
    assert line[|t.lead|..] == SegsText(t.segs) + t.tail;
    SegsParse(line, [], Progress(0, [], NO_FILE, NO_FILE), t.segs, t.tail);
    assert Text(line, NO_FILE) == [];
    var p := TakeSegments(line, [], Progress(0, [], NO_FILE, NO_FILE));
    assert SegTexts(line, []) + SegWords(t.segs) == SegWords(t.segs);
    AmpersandTexts(line, p);
  }

  lemma {:induction false} TextStarts(segs: seq<Seg>, tail: bytes)
    requires SegsOk(segs, tail != []) && (tail == [] || !IsSep(tail[0]))
    ensures var text := SegsText(segs) + tail; text == [] || !IsSep(text[0])
  {
    if segs != [] {
      RestStarts(segs, tail);
    }
  }

  // ----- Every line is a sentence -----

  // The items of a segment from position i on, where n words came before.
  lemma {:induction false} ItemsOfLine(line: bytes, i: nat, n: nat) returns (items: seq<Item>, j: nat)
    requires i <= |line| && n <= MAX_ARGS
    ensures i <= j <= |line| && ItemsText(items) == line[i..j] && ItemsOk(items, n)
    ensures items != [] && IsSep(line[i]) ==> items[0].pre != []
    ensures i < |line| && !IsSep(line[i]) && n < MAX_ARGS ==> items != [] && items[0].pre == []
    ensures items == [] ==> j == i
    ensures items != [] ==> j > i && (j < |line| ==> IsSep(line[j]))
    ensures items != [] && Dangles(Last(items)) ==> j == |line| || line[j] == PIPE
    ensures n + |Words(items)| == MAX_ARGS || SkipBlanks(line, j) == |line| || line[SkipBlanks(line, j)] == PIPE
    decreases |line| - i
  {
    hide ItemsText, Words, ItemOk, Body, WordEnd;
    var k := SkipBlanks(line, i);
    NoItemsText();
    if n == MAX_ARGS || k == |line| || line[k] == PIPE {
      items, j := [], i;
    } else {
      var it, end := ItemOfLine(line, i, k);
      if Dangles(it) {
        items, j := [it], end;
        OneItemText(it, [], n);
        assert [it] + [] == [it];
        Unit(line[i..end]);
        assert SkipBlanks(line, end) == end by { AtStop(line, end); }
      } else {
        var more;
        more, j := ItemsOfLine(line, end, if it.Word? then n + 1 else n);
        items := [it] + more;
        OneItemText(it, more, n);
        Glued(line, i, end, j);
      }
    }
  }

  lemma AtStop(line: bytes, i: nat)
    requires i <= |line| && (i == |line| || line[i] == PIPE)
    ensures SkipBlanks(line, i) == i
  {
  }

  lemma NoItemsText()
    ensures ItemsText([]) == [] && Words([]) == []
  {
  }

  lemma OneItemText(it: Item, more: seq<Item>, n: nat)
    requires ItemOk(it) && n < MAX_ARGS && ItemsOk(more, if it.Word? then n + 1 else n)
    requires more != [] ==> more[0].pre != [] && !Dangles(it)
    ensures ItemsText([it] + more) == (it.pre + Body(it)) + ItemsText(more)
    ensures ItemsOk([it] + more, n)
    ensures |Words([it] + more)| == |Words(more)| + if it.Word? then 1 else 0
    ensures Last([it] + more) == if more == [] then it else Last(more)
  {
    DropHead([it], more);
  }

  // One item, behind the blanks up to k.
  lemma ItemOfLine(line: bytes, i: nat, k: nat) returns (it: Item, end: nat)
    requires i <= k < |line| && k == SkipBlanks(line, i) && line[k] != PIPE
    ensures k < end <= |line| && it.pre == line[i..k] && it.pre + Body(it) == line[i..end] && ItemOk(it)
    ensures end < |line| ==> IsSep(line[end])
    ensures Dangles(it) ==> end == |line| || line[end] == PIPE
  {
    assert AllBlank(line[i..k]);
    if line[k] == GREATER || line[k] == LESS {
      hide SkipBlanks, AllBlank;
      it, end := RedirectOfLine(line, k, line[i..k]);
    } else {
      hide SkipBlanks, AllBlank;
      it, end := WordOfLine(line, k, line[i..k]);
    }
    Glued(line, i, k, end);
  }

  lemma RedirectOfLine(line: bytes, k: nat, pre: bytes) returns (it: Item, end: nat)
    requires k < |line| && (line[k] == GREATER || line[k] == LESS) && AllBlank(pre)
    ensures k < end <= |line| && it.pre == pre && Body(it) == line[k..end] && ItemOk(it)
    ensures end < |line| ==> IsSep(line[end])
    ensures Dangles(it) ==> end == |line| || line[end] == PIPE
  {
    var start := SkipBlanks(line, k + 1);
    end := WordEnd(line, start, true);
    it := Redirect(pre, line[k], line[k + 1..start], line[start..end]);
    hide SkipBlanks, WordEnd;
    assert line[k..end] == [line[k]] + line[k + 1..start] + line[start..end];
  }

  lemma WordOfLine(line: bytes, k: nat, pre: bytes) returns (it: Item, end: nat)
    requires k < |line| && !IsSep(line[k]) && line[k] != GREATER && line[k] != LESS && AllBlank(pre)
    ensures k < end <= |line| && it.pre == pre && Body(it) == line[k..end] && ItemOk(it) && it.Word?
    ensures end < |line| ==> IsSep(line[end])
  {
    end := WordEnd(line, k, true);
    it := Word(pre, line[k..end]);
  }

  lemma Glued(line: bytes, i: nat, k: nat, end: nat)
    requires i <= k <= end <= |line|
    ensures line[i..k] + line[k..end] == line[i..end]
  {
  }

  lemma {:induction false} SegsOfLine(line: bytes, i: nat, m: nat) returns (segs: seq<Seg>, tail: bytes)
    requires i <= |line| && (i == |line| || !IsSep(line[i]))
    ensures SegsText(segs) + tail == line[i..] && SegsOk(segs, tail != []) && |segs| <= m
    ensures tail == [] || (|segs| == m && !IsSep(tail[0]))
    ensures segs == [] && tail == [] <==> i == |line|
    decreases m
  {
    hide ItemsText, Words, ItemsOk, SkipSeps;
    segs, tail := [], line[i..];
    if i < |line| && m > 0 {
      var items, j := ItemsOfLine(line, i, 0);
      var e := SkipSeps(line, j);
      var seg := Seg(items, line[j..e]);
      var more;
      more, tail := SegsOfLine(line, e, m - 1);
      segs := [seg] + more;
      SegEnds(line, j, e, seg);
      DropHead([seg], more);
      NoSegs(more, tail);
      assert line[i..j] + line[j..e] + line[e..] == line[i..];
      Assoc(ItemsText(items) + seg.after, SegsText(more), tail);
    }
  }

  lemma NoSegs(segs: seq<Seg>, tail: bytes)
    ensures segs == [] && tail == [] ==> SegsText(segs) + tail == []
  {
  }

  // What follows a segment of a line.
  lemma SegEnds(line: bytes, j: nat, e: nat, seg: Seg)
    requires j <= |line| && e == SkipSeps(line, j) && seg.items != [] && seg.after == line[j..e]
    requires j < |line| ==> IsSep(line[j])
    requires Dangles(Last(seg.items)) ==> j == |line| || line[j] == PIPE
    requires |Words(seg.items)| == MAX_ARGS || SkipBlanks(line, j) == |line| || line[SkipBlanks(line, j)] == PIPE
    ensures EndOk(seg, e < |line|)
  {
    var b := SkipBlanks(line, j);
    if b < |line| && line[b] == PIPE {
      assert b < e;
      assert seg.after[b - j] == PIPE;
    }
  }

  // Main result: there is no other line. So what is said of sentences is said of whatever is
  // typed.
  lemma EveryLineIsSentence(line: bytes) returns (t: Sentence)
    ensures SentenceOk(t) && SentenceText(t) == line
  {
    var i := SkipSeps(line, 0);
    var segs, tail := SegsOfLine(line, i, MAX_SEGMENTS);
    t := Sentence(line[..i], segs, tail);
  }

  lemma AmpersandTexts(line: bytes, p: Pipeline)
    requires !p.background
    ensures SegTexts(line, TakeAmpersand(line, p).segments) == DropAmpersand(SegTexts(line, p.segments))
    ensures TakeAmpersand(line, p).background == EndsInAmpersand(SegTexts(line, p.segments))
  {
    hide Text;
    var words := SegTexts(line, p.segments);
    if words != [] {
      assert Last(words) == Texts(line, Last(p.segments));
      if Last(words) != [] {
        assert Last(Last(words)) == Text(line, Last(Last(p.segments)));
        assert Texts(line, Front(Last(p.segments))) == Front(Last(words));
        assert SegTexts(line, Front(p.segments)) == Front(words);
        assert SegTexts(line, Front(p.segments) + [Front(Last(p.segments))]) == Front(words) + [Front(Last(words))];
      }
    }
  }

  // ----- Lines without redirects -----

  ghost predicate RedirectFree(line: bytes) {
    LESS !in line && GREATER !in line
  }

  // Where the piece of the line that holds position i ends: at the next '|' or at the end.
  function BarAt(line: bytes, i: nat): (e: nat)
    requires i <= |line|
    ensures i <= e <= |line|
    ensures e < |line| ==> line[e] == PIPE
    ensures forall k :: i <= k < e ==> line[k] != PIPE
    decreases |line| - i
  {
    if i == |line| || line[i] == PIPE then i else BarAt(line, i + 1)
  }

  lemma BarIs(line: bytes, i: nat, e: nat)
    requires i <= e <= |line| && (e == |line| || line[e] == PIPE)
    requires forall k :: i <= k < e ==> line[k] != PIPE
    ensures BarAt(line, i) == e
  {
    var f := BarAt(line, i);
  }

  // Scanning the line and scanning one piece of it find the same words.
  lemma SkipWithin(line: bytes, i: nat, e: nat)
    requires i <= e <= |line| && (e == |line| || line[e] == PIPE)
    ensures SkipBlanks(line, i) <= e && SkipBlanks(line[..e], i) == SkipBlanks(line, i)
  {
    var j, k := SkipBlanks(line, i), SkipBlanks(line[..e], i);
    assert forall n :: 0 <= n < e ==> line[..e][n] == line[n];
    assert k < e ==> !IsBlank(line[k]);
    assert j < e ==> !IsBlank(line[..e][j]);
  }

  lemma WordWithin(line: bytes, i: nat, e: nat)
    requires i <= e <= |line| && (e == |line| || line[e] == PIPE)
    requires forall k :: i <= k < e ==> line[k] != PIPE
    ensures WordEnd(line, i, true) <= e && WordEnd(line[..e], i, false) == WordEnd(line, i, true)
  {
    var j, k := WordEnd(line, i, true), WordEnd(line[..e], i, false);
    assert forall n :: 0 <= n < e ==> line[..e][n] == line[n];
    assert k < e ==> IsBlank(line[k]);
    assert j < e ==> !Stops(line[j], true) || IsBlank(line[j]);
  }

  function Drop<T>(s: seq<T>, n: nat): seq<T> {
    s[Min(|s|, n)..]
  }

  // The words of the piece that ends at e, from position i on.
  function PieceWords(line: bytes, i: nat, e: nat): seq<Slice>
    requires i <= e <= |line|
  {
    AllRuns(line[..e], i)
  }

  lemma PieceWordsStep(line: bytes, i: nat, e: nat)
    requires i <= e <= |line| && e == BarAt(line, i)
    ensures var j := SkipBlanks(line, i);
            && i <= j <= e
            && (j == e ==> PieceWords(line, i, e) == [])
            && (j < e ==>
                  var end := WordEnd(line, j, true);
                  j < end <= e && BarAt(line, end) == e &&
                  PieceWords(line, i, e) == [Slice(j, end - j)] + PieceWords(line, end, e))
  {
    hide AllRuns, SkipBlanks, WordEnd, BarAt;
    var j := SkipBlanks(line, i);
    SkipWithin(line, i, e);
    AllRunsStep(line[..e], i);
    if j < e {
      WordWithin(line, j, e);
      var end := WordEnd(line, j, true);
      BarIs(line, end, e);
      assert line[j] != PIPE && !IsBlank(line[j]);
    }
  }

  // One segment takes the next words of the piece, up to 16 in all.
  lemma {:induction false} SegmentTakesWords(line: bytes, s: Progress)
    requires RedirectFree(line) && s.i <= |line| && |s.args| <= MAX_ARGS
    ensures var r := TakeSegment(line, s);
            var e := BarAt(line, s.i);
            var n := MAX_ARGS - |s.args|;
            && s.i <= r.i <= e && BarAt(line, r.i) == e && r.out == s.out && r.inn == s.inn
            && r.args == s.args + Take(PieceWords(line, s.i, e), n)
            && PieceWords(line, r.i, e) == Drop(PieceWords(line, s.i, e), n)
    decreases MAX_ARGS - |s.args|
  {
    hide SkipBlanks, WordEnd, TakeSegment, PieceWords, BarAt;
    var e := BarAt(line, s.i);
    var n := MAX_ARGS - |s.args|;
    PieceWordsStep(line, s.i, e);
    if s.i == |line| || line[s.i] == PIPE || n == 0 {
      SegmentEnds(line, s);
      Unit(s.args);
    } else {
      var j := SkipBlanks(line, s.i);
      SegmentStep(line, s);
      if j == e {
        BarIs(line, e, e);
        PieceWordsStep(line, e, e);
        Unit(s.args);
      } else {
        assert line[j] in line;
        var r := TakeItem(line, s.(i := j));
        SegmentTakesWords(line, r);
        TakenFirst(s.args, Slice(j, r.i - j), PieceWords(line, r.i, e), n);
      }
    }
  }

  lemma TakenFirst<T>(args: seq<T>, w: T, rest: seq<T>, n: nat)
    requires n > 0
    ensures args + [w] + Take(rest, n - 1) == args + Take([w] + rest, n)
    ensures Drop([w] + rest, n) == Drop(rest, n - 1)
  {
  }

  function Chunks(words: seq<Slice>): seq<seq<Slice>> {
    if words == [] then []
    else if |words| <= MAX_ARGS then [words]
    else [words[..MAX_ARGS]] + Chunks(words[MAX_ARGS..])
  }

  lemma ChunksCons(words: seq<Slice>)
    requires words != []
    ensures Chunks(words) == [Take(words, MAX_ARGS)] + Chunks(Drop(words, MAX_ARGS))
  {
    if |words| <= MAX_ARGS {
      assert Take(words, MAX_ARGS) == words && Drop(words, MAX_ARGS) == [];
    }
  }

  // The pieces between bars, from position i on: their words, in chunks of 16,
  function PieceChunks(line: bytes, i: nat): seq<seq<Slice>>
    requires i <= |line|
    decreases |line| - i
  {
    var e := BarAt(line, i);
    Chunks(PieceWords(line, i, e)) + if e == |line| then [] else PieceChunks(line, e + 1)
  }

  // and the pieces themselves, but for blank ones.
  function Pieces(line: bytes, i: nat): seq<seq<Slice>>
    requires i <= |line|
    decreases |line| - i
  {
    var e := BarAt(line, i);
    var words := PieceWords(line, i, e);
    (if words == [] then [] else [words]) + if e == |line| then [] else Pieces(line, e + 1)
  }

  lemma PieceBlank(line: bytes, i: nat)
    requires i < |line| && IsBlank(line[i])
    ensures BarAt(line, i) == BarAt(line, i + 1)
    ensures PieceWords(line, i, BarAt(line, i)) == PieceWords(line, i + 1, BarAt(line, i))
  {
    var e := BarAt(line, i);
    assert line[..e][i] == line[i];
    assert SkipBlanks(line[..e], i) == SkipBlanks(line[..e], i + 1);
  }

  lemma {:induction false} SepsBetweenPieces(line: bytes, i: nat)
    requires i <= |line|
    ensures PieceChunks(line, i) == PieceChunks(line, SkipSeps(line, i))
    decreases |line| - i
  {
    hide PieceWords;
    if i < |line| && IsSep(line[i]) {
      SepsBetweenPieces(line, i + 1);
      if IsBlank(line[i]) {
        PieceBlank(line, i);
      } else {
        PieceWordsStep(line, i, i);
        Unit(PieceChunks(line, i + 1));
      }
    }
  }

  lemma NoPieces(line: bytes)
    ensures PieceChunks(line, |line|) == []
  {
    PieceWordsStep(line, |line|, |line|);
  }

  // A word that starts at j gives the first chunk, and the parser stops where the next begins.
  lemma FirstChunk(line: bytes, s: Progress)
    requires RedirectFree(line) && s.i < |line| && !IsSep(line[s.i]) && s.args == []
    ensures var r := TakeSegment(line, s);
            r.out == s.out && r.inn == s.inn && PieceChunks(line, s.i) == [r.args] + PieceChunks(line, r.i)
  {
    hide TakeSegment, PieceWords, PieceChunks, Chunks, SkipBlanks, WordEnd, BarAt;
    SegmentTakesWords(line, s);
    PieceChunksAt(line, s.i);
    PieceChunksAt(line, TakeSegment(line, s).i);
    var e := BarAt(line, s.i);
    PieceWordsStep(line, s.i, e);
    assert SkipBlanks(line, s.i) == s.i by { StartsHere(line, s.i); }
    assert s.i < e by { BarIsLater(line, s.i); }
    var words := PieceWords(line, s.i, e);
    ChunksCons(words);
    Unit(Take(words, MAX_ARGS));
    Assoc([Take(words, MAX_ARGS)], Chunks(Drop(words, MAX_ARGS)), if e == |line| then [] else PieceChunks(line, e + 1));
  }

  lemma PieceChunksAt(line: bytes, i: nat)
    requires i <= |line|
    ensures var e := BarAt(line, i);
            PieceChunks(line, i) ==
            Chunks(PieceWords(line, i, e)) + if e == |line| then [] else PieceChunks(line, e + 1)
  {
  }

  lemma StartsHere(line: bytes, i: nat)
    requires i < |line| && !IsBlank(line[i])
    ensures SkipBlanks(line, i) == i
  {
  }

  lemma BarIsLater(line: bytes, i: nat)
    requires i < |line| && line[i] != PIPE
    ensures BarAt(line, i) > i
  {
  }

  // Main result on such lines: the segments are the first 8 chunks of the pieces.
  lemma {:induction false} SegmentsAreChunks(line: bytes, done: seq<seq<Slice>>, s: Progress)
    requires RedirectFree(line) && s.i <= |line| && |done| <= MAX_SEGMENTS
    ensures var p := TakeSegments(line, done, s);
            && p.segments == Take(done + PieceChunks(line, s.i), MAX_SEGMENTS)
            && p.stdoutFile == s.out && p.stdinFile == s.inn && !p.background
    decreases MAX_SEGMENTS - |done|
  {
    hide SkipSeps, TakeSegment, PieceChunks;
    var j := SkipSeps(line, s.i);
    SepsBetweenPieces(line, s.i);
    NoPieces(line);
    Unit(done);
    if s.i < |line| && |done| < MAX_SEGMENTS && j < |line| {
      var at := s.(i := j, args := []);
      var r := TakeSegment(line, at);
      FirstChunk(line, at);
      SegmentsAreChunks(line, done + [r.args], r);
      Assoc(done, [r.args], PieceChunks(line, r.i));
    }
  }

  lemma ParseChunks(line: bytes)
    requires RedirectFree(line)
    ensures Parsed(line) ==
            TakeAmpersand(line, Pipeline(Take(PieceChunks(line, 0), MAX_SEGMENTS), NO_FILE, NO_FILE, false))
  {
    SegmentsAreChunks(line, [], Progress(0, [], NO_FILE, NO_FILE));
    Unit(PieceChunks(line, 0));
  }

  lemma {:induction false} ChunkSizes(words: seq<Slice>)
    ensures forall k :: 0 <= k < |Chunks(words)| ==> 0 < |Chunks(words)[k]| <= MAX_ARGS
    ensures 0 < |words| <= MAX_ARGS ==> Chunks(words) == [words]
  {
    if |words| > MAX_ARGS {
      ChunkSizes(words[MAX_ARGS..]);
    }
  }

  ghost predicate Short(pieces: seq<seq<Slice>>) {
    forall k :: 0 <= k < |pieces| ==> |pieces[k]| <= MAX_ARGS
  }

  lemma {:induction false} ShortPieces(line: bytes, i: nat)
    requires i <= |line|
    ensures Short(PieceChunks(line, i))
    ensures Short(Pieces(line, i)) ==> PieceChunks(line, i) == Pieces(line, i)
    decreases |line| - i
  {
    hide Chunks, PieceWords, Short, BarAt;
    var e := BarAt(line, i);
    var words := PieceWords(line, i, e);
    var rest := if e == |line| then [] else Pieces(line, e + 1);
    ChunkSizes(words);
    ShortChunks(words);
    NoChunks();
    ShortNone();
    ShortBoth(Chunks(words), if e == |line| then [] else PieceChunks(line, e + 1));
    ShortBoth(if words == [] then [] else [words], rest);
    ShortOne(words);
    if e < |line| {
      ShortPieces(line, e + 1);
    }
  }

  lemma ShortNone()
    ensures Short([])
  {
  }

  lemma ShortOne(words: seq<Slice>)
    ensures Short([words]) <==> |words| <= MAX_ARGS
  {
    assert [words][0] == words;
  }

  lemma ShortChunks(words: seq<Slice>)
    ensures Short(Chunks(words))
  {
    ChunkSizes(words);
  }

  lemma ShortBoth(a: seq<seq<Slice>>, b: seq<seq<Slice>>)
    ensures Short(a + b) <==> Short(a) && Short(b)
  {
    assert forall k :: 0 <= k < |a| ==> (a + b)[k] == a[k];
    assert forall k :: 0 <= k < |b| ==> (a + b)[|a| + k] == b[k];
  }

  lemma NoChunks()
    ensures Chunks([]) == []
  {
  }

  // There is one segment for each non-blank piece, with exactly its words, if and only if
  // there are at most 8 such pieces and each has at most 16 words.
  lemma SegmentPerPiece(line: bytes)
    requires RedirectFree(line)
    ensures TakeSegments(line, [], Progress(0, [], NO_FILE, NO_FILE)).segments == Pieces(line, 0) <==>
            |Pieces(line, 0)| <= MAX_SEGMENTS && Short(Pieces(line, 0))
  {
    hide TakeSegments, PieceChunks, Pieces;
    SegmentsAreChunks(line, [], Progress(0, [], NO_FILE, NO_FILE));
    Unit(PieceChunks(line, 0));
    ShortPieces(line, 0);
  }

  // ----- Lines without operators -----

  ghost predicate OperatorFree(line: bytes) {
    PIPE !in line && RedirectFree(line)
  }

  lemma OnePiece(line: bytes)
    requires PIPE !in line
    ensures PieceChunks(line, 0) == Chunks(AllRuns(line, 0))
  {
    BarIs(line, 0, |line|);
    assert line[..|line|] == line;
    Unit(Chunks(AllRuns(line, 0)));
  }

  // With 1 to 16 words there is one segment, and its arguments are the tokenizer's words,
  // minus a final lone "&".
  lemma ParseAgreesWithTokenize(line: bytes)
    requires OperatorFree(line) && 1 <= |Runs(line, 0, 17)| <= 16
    ensures var words := Runs(line, 0, 16);
            && words != []
            && Parsed(line).background == (Text(line, Last(words)) == [AMP])
            && Parsed(line).segments == [if Parsed(line).background then Front(words) else words]
  {
    hide Parsed, Runs, AllRuns, PieceChunks;
    ParseChunks(line);
    OnePiece(line);
    RunsAll(line, 0, 17);
    RunsAll(line, 0, 16);
    var words := Runs(line, 0, 16);
    assert words == AllRuns(line, 0);
    ChunkSizes(words);
    var one := [words];
    assert Front(one) == [] && Last(one) == words;
  }
}
