// The wildcard matcher (src/features/service/glob.rs).
//
// Reference: a pattern is a sequence of tokens, and matching is a recursive relation
// between tokens and names. The shell's matcher is a two-pointer loop that remembers only
// the last star. Run is that loop as a function, GlobMatch is the loop itself.
module Glob {
  import opened Bytes

  // ----- The pattern language -----

  datatype Item = Range(lo: byte, hi: byte) | Single(b: byte)

  datatype Token = Star | Any | Class(items: seq<Item>) | Lit(b: byte)

  // First index of ']' at or after i, or |p|.
  function CloseAt(p: bytes, i: nat): (e: nat)
    requires i <= |p|
    ensures i <= e <= |p|
    ensures e < |p| ==> p[e] == CLOSE
    ensures forall k :: i <= k < e ==> p[k] != CLOSE
    decreases |p| - i
  {
    if i == |p| || p[i] == CLOSE then i else CloseAt(p, i + 1)
  }

  function Items(members: bytes): seq<Item> {
    if members == [] then []
    else if |members| > 2 && members[1] == MINUS then [Range(members[0], members[2])] + Items(members[3..])
    else [Single(members[0])] + Items(members[1..])
  }

  // An unclosed '[' stands for itself; the first ']' always closes.
  function Tokens(p: bytes): seq<Token> {
    if p == [] then []
    else if p[0] == STAR then [Star] + Tokens(p[1..])
    else if p[0] == QUESTION then [Any] + Tokens(p[1..])
    else if p[0] == OPEN && CloseAt(p, 1) < |p| then
      [Class(Items(p[1..CloseAt(p, 1)]))] + Tokens(p[CloseAt(p, 1) + 1..])
    else [Lit(p[0])] + Tokens(p[1..])
  }

  predicate InItem(it: Item, c: byte) {
    match it
    case Range(lo, hi) => lo <= c <= hi
    case Single(b) => c == b
  }

  // Does a single byte satisfy a token other than a star?
  predicate Fits(t: Token, c: byte) {
    match t
    case Star => false
    case Any => true
    case Class(items) => exists k :: 0 <= k < |items| && InItem(items[k], c)
    case Lit(b) => b == c
  }

  // The matching relation.
  predicate Matches(ts: seq<Token>, name: bytes)
    decreases |ts|, |name|
  {
    if ts == [] then name == []
    else if ts[0].Star? then Matches(ts[1..], name) || (name != [] && Matches(ts, name[1..]))
    else name != [] && Fits(ts[0], name[0]) && Matches(ts[1..], name[1..])
  }

  // The same relation without recursion over the name: the name falls into one piece per
  // token, a star takes any piece and every other token takes one fitting byte.
  function Flatten(pieces: seq<bytes>): bytes {
    if pieces == [] then [] else pieces[0] + Flatten(pieces[1..])
  }

  ghost predicate Splits(ts: seq<Token>, pieces: seq<bytes>) {
    |pieces| == |ts| &&
    forall k :: 0 <= k < |ts| ==>
      ts[k].Star? || (|pieces[k]| == 1 && Fits(ts[k], pieces[k][0]))
  }

  lemma {:induction false} MatchesGivesPieces(ts: seq<Token>, name: bytes) returns (pieces: seq<bytes>)
    requires Matches(ts, name)
    ensures Splits(ts, pieces) && Flatten(pieces) == name
    decreases |ts|, |name|
  {
    if ts == [] {
      pieces := [];
    } else if ts[0].Star? && !Matches(ts[1..], name) {
      var rest := MatchesGivesPieces(ts, name[1..]);
      pieces := [[name[0]] + rest[0]] + rest[1..];
      assert name == [name[0]] + name[1..];
    } else {
      var head := if ts[0].Star? then [] else [name[0]];
      var rest := MatchesGivesPieces(ts[1..], name[|head|..]);
      pieces := [head] + rest;
    }
  }

  lemma {:induction false} PiecesGiveMatch(ts: seq<Token>, pieces: seq<bytes>)
    requires Splits(ts, pieces)
    ensures Matches(ts, Flatten(pieces))
  {
    if ts != [] {
      PiecesGiveMatch(ts[1..], pieces[1..]);
      var tail := Flatten(pieces[1..]);
      if ts[0].Star? {
        StarSkips(ts, pieces[0], tail);
      } else {
        assert (pieces[0] + tail)[1..] == tail;
      }
    }
  }

  // A star swallows any prefix.
  lemma {:induction false} StarSkips(ts: seq<Token>, skipped: bytes, tail: bytes)
    requires ts != [] && ts[0].Star? && Matches(ts[1..], tail)
    ensures Matches(ts, skipped + tail)
    decreases |skipped|
  {
    if skipped == [] {
      assert skipped + tail == tail;
    } else {
      StarSkips(ts, skipped[1..], tail);
      assert (skipped + tail)[1..] == skipped[1..] + tail;
    }
  }

  lemma MatchesIffPieces(ts: seq<Token>, name: bytes)
    ensures Matches(ts, name) <==> exists pieces :: Splits(ts, pieces) && Flatten(pieces) == name
  {
    if Matches(ts, name) {
      var pieces := MatchesGivesPieces(ts, name);
    }
    forall pieces | Splits(ts, pieces) && Flatten(pieces) == name
      ensures Matches(ts, name)
    {
      PiecesGiveMatch(ts, pieces);
    }
  }

  // ----- The two-pointer loop as a function -----

  // pi and ni are the two read positions; star is the position of the last star taken, and
  // starNi the first name position it has not yet been made to skip.
  datatype Cursor = Cursor(pi: nat, ni: nat, star: Option<nat>, starNi: nat)

  ghost predicate WellFormed(p: bytes, name: bytes, c: Cursor) {
    && c.pi <= |p|
    && c.starNi <= c.ni <= |name|
    && (c.star.Some? ==> c.star.value < c.pi && p[c.star.value] == STAR)
  }

  function ClassHas(members: bytes, c: byte): (r: bool)
    ensures r <==> Fits(Class(Items(members)), c)
  {
    if members == [] then false
    else if |members| > 2 && members[1] == MINUS then
      assert Items(members) == [Range(members[0], members[2])] + Items(members[3..]);
      assert (members[0] <= c <= members[2]) ==> InItem(Items(members)[0], c);
      assert forall k :: 0 <= k < |Items(members[3..])| ==> Items(members[3..])[k] == Items(members)[k + 1];
      members[0] <= c <= members[2] || ClassHas(members[3..], c)
    else
      assert Items(members) == [Single(members[0])] + Items(members[1..]);
      assert c == members[0] ==> InItem(Items(members)[0], c);
      assert forall k :: 0 <= k < |Items(members[1..])| ==> Items(members[1..])[k] == Items(members)[k + 1];
      c == members[0] || ClassHas(members[1..], c)
  }

  // The pattern position after the head at pi consumes byte c, if it does.
  function Consume(p: bytes, pi: nat, c: byte): (r: Option<nat>)
    requires pi < |p|
    ensures r.Some? ==> pi < r.value <= |p|
  {
    if p[pi] == OPEN then
      var end := CloseAt(p, pi + 1);
      if end >= |p| then (if c == OPEN then Some(pi + 1) else None)
      else if ClassHas(p[pi + 1..end], c) then Some(end + 1) else None
    else if p[pi] == QUESTION || p[pi] == c then Some(pi + 1)
    else None
  }

  predicate Eats(p: bytes, name: bytes, c: Cursor)
    requires c.ni < |name|
  {
    c.pi < |p| && Consume(p, c.pi, name[c.ni]).Some?
  }

  predicate AtStar(p: bytes, c: Cursor) {
    c.pi < |p| && p[c.pi] == STAR
  }

  function Eaten(p: bytes, name: bytes, c: Cursor): Cursor
    requires c.ni < |name| && Eats(p, name, c)
  {
    c.(pi := Consume(p, c.pi, name[c.ni]).value, ni := c.ni + 1)
  }

  function Starred(c: Cursor): Cursor {
    Cursor(c.pi + 1, c.ni, Some(c.pi), c.ni)
  }

  function Retried(c: Cursor): Cursor
    requires c.star.Some?
  {
    Cursor(c.star.value + 1, c.starNi + 1, c.star, c.starNi + 1)
  }

  // One iteration of the loop; None is the early "return false".
  function Advance(p: bytes, name: bytes, c: Cursor): (r: Option<Cursor>)
    requires WellFormed(p, name, c) && c.ni < |name|
    ensures r.Some? ==> WellFormed(p, name, r.value)
  {
    if Eats(p, name, c) then Some(Eaten(p, name, c))
    else if AtStar(p, c) then Some(Starred(c))
    else if c.star.Some? then Some(Retried(c))
    else None
  }

  predicate AllStars(p: bytes) {
    forall k :: 0 <= k < |p| ==> p[k] == STAR
  }

  function StarsLeft(p: bytes, c: Cursor): int {
    if c.star.None? then |p| + 1 else |p| - c.star.value
  }

  // Running the loop to its end.
  predicate Run(p: bytes, name: bytes, c: Cursor)
    requires WellFormed(p, name, c)
    decreases StarsLeft(p, c), |name| - c.starNi, |name| - c.ni
  {
    if c.ni == |name| then AllStars(p[c.pi..])
    else
      var next := Advance(p, name, c);
      next.Some? && Run(p, name, next.value)
  }

  // The number of iterations that run takes.
  function Iterations(p: bytes, name: bytes, c: Cursor): nat
    requires WellFormed(p, name, c)
    decreases StarsLeft(p, c), |name| - c.starNi, |name| - c.ni
  {
    if c.ni == |name| then 0
    else
      var next := Advance(p, name, c);
      1 + if next.None? then 0 else Iterations(p, name, next.value)
  }

  const START: Cursor := Cursor(0, 0, None, 0)

  predicate Decides(p: bytes, name: bytes) {
    Run(p, name, START)
  }

  // ----- The loop itself -----

  method ScanClose(p: bytes, from: nat) returns (end: nat)
    requires from <= |p|
    ensures end == CloseAt(p, from)
  {
    end := from;
    while end < |p| && p[end] != CLOSE
      invariant from <= end <= |p|
      invariant CloseAt(p, end) == CloseAt(p, from)
    {
      end := end + 1;
    }
  }

  method ScanClass(members: bytes, c: byte) returns (matched: bool)
    ensures matched == ClassHas(members, c)
  {
    matched := false;
    var i := 0;
    while i < |members|
      invariant 0 <= i <= |members|
      invariant ClassHas(members[i..], c) == ClassHas(members, c)
    {
      if i + 2 < |members| && members[i + 1] == MINUS {
        if members[i] <= c <= members[i + 2] {
          matched := true;
          return;
        }
        assert members[i..][3..] == members[i + 3..];
        i := i + 3;
      } else {
        if c == members[i] {
          matched := true;
          return;
        }
        assert members[i..][1..] == members[i + 1..];
        i := i + 1;
      }
    }
  }

  lemma RunStep(p: bytes, name: bytes, c: Cursor)
    requires WellFormed(p, name, c) && c.ni < |name|
    ensures var next := Advance(p, name, c);
            && Run(p, name, c) == (next.Some? && Run(p, name, next.value))
            && Iterations(p, name, c) == 1 + if next.None? then 0 else Iterations(p, name, next.value)
  {
  }

  lemma RunEnd(p: bytes, name: bytes, c: Cursor)
    requires WellFormed(p, name, c) && c.ni == |name|
    ensures Run(p, name, c) == AllStars(p[c.pi..]) && Iterations(p, name, c) == 0
  {
  }

  // The '[' case: an unclosed bracket stands for itself, a closed one is a class. None is a
  // mismatch, otherwise the pattern position behind the bracket or the class.
  method MatchBracket(pattern: bytes, pi: nat, c: byte) returns (next: Option<nat>)
    requires pi < |pattern| && pattern[pi] == OPEN
    ensures next == Consume(pattern, pi, c)
  {
    hide ClassHas, CloseAt;
    var end := ScanClose(pattern, pi + 1);
    if end >= |pattern| {
      return if c != OPEN then None else Some(pi + 1);
    }
    var matched := ScanClass(pattern[pi + 1..end], c);
    next := if matched then Some(end + 1) else None;
  }

  // steps counts the iterations of the main loop.
  method GlobMatch(pattern: bytes, name: bytes) returns (result: bool, ghost steps: nat)
    ensures result == Decides(pattern, name)
    ensures steps == Iterations(pattern, name, START)
  {
    hide Run, Iterations;
    var pi: nat, ni: nat := 0, 0;
    var starPi: Option<nat> := None;
    var starNi: nat := 0;
    steps := 0;
    while ni < |name|
      invariant WellFormed(pattern, name, Cursor(pi, ni, starPi, starNi))
      invariant Run(pattern, name, Cursor(pi, ni, starPi, starNi)) == Decides(pattern, name)
      invariant steps + Iterations(pattern, name, Cursor(pi, ni, starPi, starNi)) == Iterations(pattern, name, START)
      decreases StarsLeft(pattern, Cursor(pi, ni, starPi, starNi)), |name| - starNi, |name| - ni
    {
      steps := steps + 1;
      ghost var next := Advance(pattern, name, Cursor(pi, ni, starPi, starNi));
      RunStep(pattern, name, Cursor(pi, ni, starPi, starNi));
      if pi < |pattern| && (pattern[pi] == QUESTION || pattern[pi] == name[ni] || pattern[pi] == OPEN) {
        var after := Some(pi + 1);
        if pattern[pi] == OPEN {
          after := MatchBracket(pattern, pi, name[ni]);
        }
        if after.None? {
          if starPi.None? {
            assert next == None;
            return false, steps;
          }
          pi, ni, starNi := starPi.value + 1, starNi + 1, starNi + 1;
        } else {
          pi, ni := after.value, ni + 1;
        }
      } else if pi < |pattern| && pattern[pi] == STAR {
        starPi, starNi := Some(pi), ni;
        pi := pi + 1;
      } else if starPi.Some? {
        pi, ni, starNi := starPi.value + 1, starNi + 1, starNi + 1;
      } else {
        assert next == None;
        return false, steps;
      }
      assert next == Some(Cursor(pi, ni, starPi, starNi));
    }
    RunEnd(pattern, name, Cursor(pi, ni, starPi, starNi));
    ghost var atEnd := pi;
    while pi < |pattern| && pattern[pi] == STAR
      invariant atEnd <= pi <= |pattern|
      invariant AllStars(pattern[atEnd..]) == AllStars(pattern[pi..])
    {
      pi := pi + 1;
    }
    result := pi == |pattern|;
    assert !result ==> pattern[pi..][0] == pattern[pi];
  }

  // ----- How many iterations -----

  // Each name position the last star has been moved to pays for one pass over the pattern.
  lemma {:induction false} IterationsFrom(p: bytes, name: bytes, c: Cursor)
    requires WellFormed(p, name, c)
    ensures c.starNi < |name| ==>
              Iterations(p, name, c) + c.pi <= (|p| + 1) * (|name| - c.starNi)
    ensures c.starNi == |name| ==> Iterations(p, name, c) == 0
    decreases StarsLeft(p, c), |name| - c.starNi, |name| - c.ni
  {
    if c.starNi < |name| {
      Passes(|p| + 1, |name| - c.starNi);
      if c.ni < |name| {
        var next := Advance(p, name, c);
        if next.Some? {
          IterationsFrom(p, name, next.value);
          MorePasses(|p| + 1, |name| - next.value.starNi, |name| - c.starNi);
        }
      }
    }
  }

  lemma Passes(width: nat, k: nat)
    requires k >= 1
    ensures width * k == width * (k - 1) + width && width * (k - 1) >= 0
  {
  }

  lemma MorePasses(width: nat, j: nat, k: nat)
    requires j <= k
    ensures width * j <= width * k
  {
  }

  lemma IterationBound(p: bytes, name: bytes)
    ensures Iterations(p, name, START) <= (|p| + 1) * |name|
  {
    IterationsFrom(p, name, START);
  }

  // ----- What the loop decides -----

  // The loop compares a pattern byte with the name byte before it looks for a star, so a star
  // that faces a '*' byte is taken as that byte. Literal is the matching relation under this
  // reading; a true result is always justified by it.
  predicate Literal(ts: seq<Token>, name: bytes)
    decreases |ts|, |name|, 0
  {
    if ts == [] then name == []
    else if ts[0].Star? then
      if name != [] && name[0] == STAR then Literal(ts[1..], name[1..]) else LiteralLater(ts[1..], name)
    else name != [] && Fits(ts[0], name[0]) && Literal(ts[1..], name[1..])
  }

  // Literal holds of some suffix of the name.
  predicate LiteralLater(ts: seq<Token>, name: bytes)
    decreases |ts|, |name|, 1
  {
    Literal(ts, name) || (name != [] && LiteralLater(ts, name[1..]))
  }

  lemma {:induction false} LiteralMatches(ts: seq<Token>, name: bytes)
    requires Literal(ts, name)
    ensures Matches(ts, name)
    decreases |ts|, |name|, 1
  {
    if ts != [] {
      if ts[0].Star? && (name == [] || name[0] != STAR) {
        LiteralLaterMatches(ts, name);
      } else {
        LiteralMatches(ts[1..], name[1..]);
        if ts[0].Star? {
          assert Matches(ts, name[1..]);
        }
      }
    }
  }

  lemma {:induction false} LiteralLaterMatches(ts: seq<Token>, name: bytes)
    requires ts != [] && ts[0].Star? && LiteralLater(ts[1..], name)
    ensures Matches(ts, name)
    decreases |ts|, |name|, 0
  {
    if Literal(ts[1..], name) {
      LiteralMatches(ts[1..], name);
    } else {
      LiteralLaterMatches(ts, name[1..]);
    }
  }

  // The suffixes of pattern and name at which a cursor stands.
  ghost predicate LiteralAt(p: bytes, name: bytes, pi: nat, ni: nat)
    requires pi <= |p| && ni <= |name|
  {
    Literal(Tokens(p[pi..]), name[ni..])
  }

  ghost predicate LaterAt(p: bytes, name: bytes, pi: nat, ni: nat)
    requires pi <= |p| && ni <= |name|
  {
    LiteralLater(Tokens(p[pi..]), name[ni..])
  }

  // How a byte-level head relates to the first token.
  lemma HeadToken(p: bytes, pi: nat, c: byte)
    requires pi < |p|
    ensures Tokens(p[pi..]) != []
    ensures Tokens(p[pi..])[0].Star? <==> p[pi] == STAR
    ensures Consume(p, pi, c).Some? <==>
              Fits(Tokens(p[pi..])[0], c) || (p[pi] == STAR && c == STAR)
    ensures Consume(p, pi, c).Some? ==>
              Tokens(p[pi..])[1..] == Tokens(p[Consume(p, pi, c).value..])
    ensures p[pi] == STAR ==> Tokens(p[pi..])[1..] == Tokens(p[pi + 1..])
  {
    var q := p[pi..];
    assert q[1..] == p[pi + 1..];
    CloseShift(p, pi, 1);
    var end := CloseAt(p, pi + 1);
    if p[pi] == OPEN && end < |p| {
      assert q[1..end - pi] == p[pi + 1..end];
      assert q[end - pi + 1..] == p[end + 1..];
    }
  }

  lemma {:induction false} CloseShift(p: bytes, pi: nat, i: nat)
    requires pi + i <= |p|
    ensures CloseAt(p[pi..], i) + pi == CloseAt(p, pi + i)
    decreases |p| - i
  {
    if pi + i < |p| && p[pi + i] != CLOSE {
      CloseShift(p, pi, i + 1);
    }
  }

  // What a true run from c establishes.
  ghost predicate Justified(p: bytes, name: bytes, c: Cursor)
    requires WellFormed(p, name, c)
  {
    LiteralAt(p, name, c.pi, c.ni) ||
    (c.star.Some? && c.starNi < |name| && LaterAt(p, name, c.star.value + 1, c.starNi + 1))
  }

  lemma {:induction false} RunSound(p: bytes, name: bytes, c: Cursor)
    requires WellFormed(p, name, c) && Run(p, name, c)
    ensures Justified(p, name, c)
    decreases StarsLeft(p, c), |name| - c.starNi, |name| - c.ni
  {
    if c.ni == |name| {
      StarsMatchEmpty(p[c.pi..]);
    } else {
      RunSound(p, name, Advance(p, name, c).value);
      if Eats(p, name, c) {
        EatenJustifies(p, name, c);
      } else if AtStar(p, c) {
        StarredJustifies(p, name, c);
      } else {
        RetriedJustifies(p, name, c);
      }
    }
  }

  lemma EatenJustifies(p: bytes, name: bytes, c: Cursor)
    requires WellFormed(p, name, c) && c.ni < |name| && Eats(p, name, c)
    requires Justified(p, name, Eaten(p, name, c))
    ensures Justified(p, name, c)
  {
    HeadToken(p, c.pi, name[c.ni]);
    assert name[c.ni..][1..] == name[c.ni + 1..];
  }

  lemma StarredJustifies(p: bytes, name: bytes, c: Cursor)
    requires WellFormed(p, name, c) && c.ni < |name| && !Eats(p, name, c) && AtStar(p, c)
    requires Justified(p, name, Starred(c))
    ensures Justified(p, name, c)
  {
    HeadToken(p, c.pi, name[c.ni]);
    LaterUnfolds(p, name, c.pi + 1, c.ni);
  }

  lemma RetriedJustifies(p: bytes, name: bytes, c: Cursor)
    requires WellFormed(p, name, c) && c.ni < |name| && c.star.Some?
    requires Justified(p, name, Retried(c))
    ensures Justified(p, name, c)
  {
    LaterUnfolds(p, name, c.star.value + 1, c.starNi + 1);
  }

  lemma LaterUnfolds(p: bytes, name: bytes, pi: nat, ni: nat)
    requires pi <= |p| && ni <= |name|
    ensures LaterAt(p, name, pi, ni) <==>
              LiteralAt(p, name, pi, ni) || (ni < |name| && LaterAt(p, name, pi, ni + 1))
  {
    if ni < |name| {
      assert name[ni..][1..] == name[ni + 1..];
    }
  }

  lemma {:induction false} StarsMatchEmpty(p: bytes)
    ensures AllStars(p) <==> Literal(Tokens(p), [])
    ensures AllStars(p) <==> Matches(Tokens(p), [])
  {
    if p != [] {
      StarsMatchEmpty(p[1..]);
      assert AllStars(p) ==> p[0] == STAR;
      assert AllStars(p) <==> p[0] == STAR && AllStars(p[1..]) by {
        assert forall k :: 1 <= k < |p| ==> p[k] == p[1..][k - 1];
        assert forall k :: 0 <= k < |p[1..]| ==> p[1..][k] == p[k + 1];
      }
      HeadToken(p, 0, 0);
      assert p[0..] == p;
    }
  }

  // Soundness, for all patterns and names.
  lemma Sound(p: bytes, name: bytes)
    requires Decides(p, name)
    ensures Literal(Tokens(p), name) && Matches(Tokens(p), name)
  {
    RunSound(p, name, START);
    assert p[0..] == p && name[0..] == name;
    LiteralMatches(Tokens(p), name);
  }

  // ----- Completeness: dropping all but the last star loses nothing -----

  // d tokens lead from pattern position i to position j, one name byte each from position k
  // on; the stars among them were taken for '*' bytes.
  ghost predicate Segment(p: bytes, name: bytes, i: nat, j: nat, k: nat, d: nat)
    requires i <= |p| && j <= |p|
  {
    && d <= |Tokens(p[i..])| && k + d <= |name|
    && Tokens(p[i..])[d..] == Tokens(p[j..])
    && forall e :: 0 <= e < d && Tokens(p[i..])[e].Star? ==> name[k + e] == STAR
  }

  // Some suffix of the name from k0 on satisfies the pattern from i on.
  ghost predicate LiteralFrom(p: bytes, name: bytes, i: nat, k0: nat)
    requires i <= |p|
  {
    exists k :: k0 <= k <= |name| && LiteralAt(p, name, i, k)
  }

  lemma {:induction false} LaterSplit(ts: seq<Token>, name: bytes) returns (k: nat)
    requires LiteralLater(ts, name)
    ensures k <= |name| && Literal(ts, name[k..])
    decreases |name|
  {
    if Literal(ts, name) {
      k := 0;
      assert name[0..] == name;
    } else {
      k := LaterSplit(ts, name[1..]);
      assert name[1..][k..] == name[k + 1..];
      k := k + 1;
    }
  }

  // The exchange argument: a match that starts the current segment at k, at or after the
  // position k0 where the loop started it, passes the segment's end at or after the name
  // position that the loop has reached; and exactly there if it starts where the loop did.
  lemma {:induction false} Overtakes(ts: seq<Token>, d: nat, name: bytes, k0: nat, k: nat) returns (y: nat)
    requires d <= |ts| && k0 + d <= |name| && k0 <= k <= |name|
    requires forall e :: 0 <= e < d && ts[e].Star? ==> name[k0 + e] == STAR
    requires Literal(ts, name[k..])
    ensures k0 + d <= y <= |name| && Literal(ts[d..], name[y..])
    ensures k == k0 ==> y == k0 + d
    decreases d
  {
    if d == 0 {
      y := k;
    } else {
      var next := k + 1;
      assert k < |name| ==> name[k..][1..] == name[k + 1..];
      if ts[0].Star? && !(k < |name| && name[k] == STAR) {
        var skip := LaterSplit(ts[1..], name[k..]);
        assert name[k..][skip..] == name[k + skip..];
        next := k + skip;
      }
      y := Overtakes(ts[1..], d - 1, name, k0 + 1, next);
      assert ts[1..][d - 1..] == ts[d..];
    }
  }

  lemma SegmentEnd(p: bytes, name: bytes, i: nat, j: nat, k0: nat, d: nat, k: nat) returns (y: nat)
    requires i <= |p| && j <= |p| && k0 <= k <= |name|
    requires Segment(p, name, i, j, k0, d) && LiteralAt(p, name, i, k)
    ensures k0 + d <= y <= |name| && LiteralAt(p, name, j, y)
    ensures k == k0 ==> y == k0 + d
  {
    y := Overtakes(Tokens(p[i..]), d, name, k0, k);
  }

  lemma SegmentGrows(p: bytes, name: bytes, i: nat, j: nat, k: nat, d: nat, j': nat)
    requires i <= |p| && j <= |p| && j' <= |p| && Segment(p, name, i, j, k, d)
    requires k + d < |name| && Tokens(p[j..]) != [] && (Tokens(p[j..])[0].Star? ==> name[k + d] == STAR)
    requires Tokens(p[j..])[1..] == Tokens(p[j'..])
    ensures Segment(p, name, i, j', k, d + 1)
  {
    hide Tokens;
    var ts := Tokens(p[i..]);
    assert ts[d] == ts[d..][0];
    assert ts[d + 1..] == ts[d..][1..];
  }

  // What is known when the loop has not yet lost a match.
  ghost predicate Alive(p: bytes, name: bytes, c: Cursor)
    requires WellFormed(p, name, c)
  {
    match c.star
    case None => c.starNi == 0 && LiteralAt(p, name, c.pi, c.ni)
    case Some(s) =>
      && Segment(p, name, s + 1, c.pi, c.starNi, c.ni - c.starNi)
      && LiteralFrom(p, name, s + 1, c.starNi)
  }

  // A live cursor has a match of the rest of the pattern at or after the name position.
  lemma AliveAhead(p: bytes, name: bytes, c: Cursor) returns (y: nat)
    requires WellFormed(p, name, c) && Alive(p, name, c)
    ensures c.ni <= y <= |name| && LiteralAt(p, name, c.pi, y)
    ensures c.star.None? ==> y == c.ni
  {
    if c.star.None? {
      y := c.ni;
    } else {
      var s := c.star.value + 1;
      var k :| c.starNi <= k <= |name| && LiteralAt(p, name, s, k);
      y := SegmentEnd(p, name, s, c.pi, c.starNi, c.ni - c.starNi, k);
    }
  }

  // One step keeps a live cursor alive, and a live cursor is never rejected.
  lemma AliveStep(p: bytes, name: bytes, c: Cursor)
    requires WellFormed(p, name, c) && c.ni < |name| && Alive(p, name, c)
    ensures Advance(p, name, c).Some?
    ensures Alive(p, name, Advance(p, name, c).value)
  {
    if Eats(p, name, c) {
      AliveEaten(p, name, c);
    } else if AtStar(p, c) {
      AliveStarred(p, name, c);
    } else {
      AliveRetried(p, name, c);
    }
  }

  lemma AliveEaten(p: bytes, name: bytes, c: Cursor)
    requires WellFormed(p, name, c) && c.ni < |name| && Alive(p, name, c) && Eats(p, name, c)
    ensures Alive(p, name, Eaten(p, name, c))
  {
    hide Tokens, Consume;
    var j := Consume(p, c.pi, name[c.ni]).value;
    HeadToken(p, c.pi, name[c.ni]);
    assert name[c.ni..][1..] == name[c.ni + 1..];
    if c.star.Some? {
      SegmentGrows(p, name, c.star.value + 1, c.pi, c.starNi, c.ni - c.starNi, j);
    }
  }

  lemma AliveStarred(p: bytes, name: bytes, c: Cursor)
    requires WellFormed(p, name, c) && c.ni < |name| && Alive(p, name, c)
    requires AtStar(p, c) && !Eats(p, name, c)
    ensures Alive(p, name, Starred(c))
  {
    hide Tokens, Consume;
    HeadToken(p, c.pi, name[c.ni]);
    var y := AliveAhead(p, name, c);
    if y < |name| && name[y] == STAR {
      assert name[y..][1..] == name[y + 1..];
      assert LiteralAt(p, name, c.pi + 1, y + 1);
    } else {
      var skip := LaterSplit(Tokens(p[c.pi + 1..]), name[y..]);
      assert name[y..][skip..] == name[y + skip..];
      assert LiteralAt(p, name, c.pi + 1, y + skip);
    }
  }

  lemma Mismatch(p: bytes, name: bytes, c: Cursor)
    requires WellFormed(p, name, c) && c.ni < |name| && !AtStar(p, c) && !Eats(p, name, c)
    ensures !LiteralAt(p, name, c.pi, c.ni)
  {
    if c.pi < |p| {
      HeadToken(p, c.pi, name[c.ni]);
    }
  }

  lemma AliveRetried(p: bytes, name: bytes, c: Cursor)
    requires WellFormed(p, name, c) && c.ni < |name| && Alive(p, name, c)
    requires !AtStar(p, c) && !Eats(p, name, c)
    ensures c.star.Some? && Alive(p, name, Retried(c))
  {
    hide Tokens, Literal, Consume;
    Mismatch(p, name, c);
    var s := c.star.value + 1;
    var k :| c.starNi <= k <= |name| && LiteralAt(p, name, s, k);
    var y := SegmentEnd(p, name, s, c.pi, c.starNi, c.ni - c.starNi, k);
    assert k != c.starNi;
  }

  lemma {:induction false} AliveRuns(p: bytes, name: bytes, c: Cursor)
    requires WellFormed(p, name, c) && Alive(p, name, c)
    ensures Run(p, name, c)
    decreases StarsLeft(p, c), |name| - c.starNi, |name| - c.ni
  {
    hide Alive, Tokens, Literal;
    if c.ni == |name| {
      var y := AliveAhead(p, name, c);
      assert name[|name|..] == [];
      StarsMatchEmpty(p[c.pi..]);
    } else {
      AliveStep(p, name, c);
      AliveRuns(p, name, Advance(p, name, c).value);
    }
  }

  // Exactly what the loop decides, for all patterns and names.
  lemma DecidesLiteral(p: bytes, name: bytes)
    ensures Decides(p, name) <==> Literal(Tokens(p), name)
  {
    assert p[0..] == p && name[0..] == name;
    if Decides(p, name) {
      Sound(p, name);
    }
    if Literal(Tokens(p), name) {
      AliveRuns(p, name, START);
    }
  }

  // ----- The same, on bytes -----

  // Main result: the equations below fix the answer for every pattern and name. First, the
  // bytes that stand for themselves and the two wildcards: 42 is a star, 63 a question mark,
  // 91 and 93 the brackets, 45 a minus.
  lemma EmptyPattern(name: bytes)
    ensures Decides([], name) <==> name == []
  {
    hide Decides;
    DecidesLiteral([], name);
  }

  lemma PlainByte(b: byte, p: bytes, name: bytes)
    requires b != 42 && b != 63 && b != 91
    ensures Decides([b] + p, name) <==> name != [] && name[0] == b && Decides(p, name[1..])
  {
    OneByteToken(b, p, name);
  }

  lemma QuestionByte(p: bytes, name: bytes)
    ensures Decides([63] + p, name) <==> name != [] && Decides(p, name[1..])
  {
    OneByteToken(63, p, name);
  }

  lemma UnclosedBracket(p: bytes, name: bytes)
    requires 93 !in p
    ensures Decides([91] + p, name) <==> name != [] && name[0] == 91 && Decides(p, name[1..])
  {
    OneByteToken(91, p, name);
  }

  // A star that faces a star takes just that; any other skips some of the name.
  lemma StarByte(p: bytes, name: bytes)
    ensures Decides([42] + p, name) <==>
            if name != [] && name[0] == 42 then Decides(p, name[1..])
            else exists k :: 0 <= k <= |name| && Decides(p, name[k..])
  {
    hide Decides;
    DropHead([42], p);
    DecidesLiteral([42] + p, name);
    if name != [] && name[0] == 42 {
      DecidesLiteral(p, name[1..]);
    } else if Decides([42] + p, name) {
      var k := LaterSplit(Tokens(p), name);
      DecidesLiteral(p, name[k..]);
    } else {
      forall k | 0 <= k <= |name| ensures !Decides(p, name[k..]) {
        DecidesLiteral(p, name[k..]);
        if Decides(p, name[k..]) {
          LaterOf(Tokens(p), name, k);
        }
      }
    }
  }

  lemma {:induction false} LaterOf(ts: seq<Token>, name: bytes, k: nat)
    requires k <= |name| && Literal(ts, name[k..])
    ensures LiteralLater(ts, name)
  {
    if k == 0 {
      assert name[0..] == name;
    } else {
      assert name[1..][k - 1..] == name[k..];
      LaterOf(ts, name[1..], k - 1);
    }
  }

  // A closed class stands for one byte.
  lemma ClosedClass(members: bytes, p: bytes, name: bytes)
    requires 93 !in members
    ensures Decides([91] + members + [93] + p, name) <==>
            name != [] && Decides([91] + members + [93], [name[0]]) && Decides(p, name[1..])
  {
    hide Decides;
    ClassToken(members, p);
    ClassToken(members, []);
    Unit([91] + members + [93]);
    DecidesLiteral([91] + members + [93] + p, name);
    if name != [] {
      DecidesLiteral([91] + members + [93], [name[0]]);
      DecidesLiteral(p, name[1..]);
    }
  }

  // Which bytes: none for the empty class, otherwise those of the first range or of the first
  // single byte, and those of the rest.
  lemma NoMember(c: byte)
    ensures !Decides([91, 93], [c])
  {
    ClassDecides([], c);
    assert [91] + [] + [93] == [91, 93];
  }

  lemma RangeMember(lo: byte, hi: byte, rest: bytes, c: byte)
    requires 93 != lo && 93 != hi && 93 !in rest
    ensures Decides([91, lo, 45, hi] + rest + [93], [c]) <==>
            lo <= c <= hi || Decides([91] + rest + [93], [c])
  {
    hide Decides;
    var members := [lo, 45, hi] + rest;
    DropHead([lo, 45, hi], rest);
    ClassDecides(members, c);
    ClassDecides(rest, c);
    assert [91, lo, 45, hi] + rest + [93] == [91] + members + [93];
  }

  lemma SingleMember(b: byte, rest: bytes, c: byte)
    requires 93 != b && 93 !in rest && (|rest| < 2 || rest[0] != 45)
    ensures Decides([91, b] + rest + [93], [c]) <==> c == b || Decides([91] + rest + [93], [c])
  {
    hide Decides;
    DropHead([b], rest);
    ClassDecides([b] + rest, c);
    ClassDecides(rest, c);
    assert [91, b] + rest + [93] == [91] + ([b] + rest) + [93];
  }

  lemma OneByteToken(b: byte, p: bytes, name: bytes)
    requires b != 42 && (b == 91 ==> 93 !in p)
    ensures Decides([b] + p, name) <==> name != [] && (b == 63 || name[0] == b) && Decides(p, name[1..])
  {
    hide Decides;
    DropHead([b], p);
    assert b == 91 ==> CloseAt([b] + p, 1) == |[b] + p|;
    DecidesLiteral([b] + p, name);
    if name != [] {
      DecidesLiteral(p, name[1..]);
    }
  }

  lemma ClassToken(members: bytes, p: bytes)
    requires 93 !in members
    ensures Tokens([91] + members + [93] + p) == [Class(Items(members))] + Tokens(p)
  {
    hide Items;
    var q := [91] + members + [93] + p;
    var end := CloseAt(q, 1);
    assert q[|members| + 1] == 93;
    forall k | 1 <= k < |members| + 1 ensures q[k] != 93 {
      assert q[k] == members[k - 1];
    }
    assert q[1..end] == members && q[end + 1..] == p;
  }

  lemma ClassDecides(members: bytes, c: byte)
    requires 93 !in members
    ensures Decides([91] + members + [93], [c]) <==> ClassHas(members, c)
  {
    hide Decides, Items;
    ClassToken(members, []);
    Unit([91] + members + [93]);
    DecidesLiteral([91] + members + [93], [c]);
  }

  // Unless a star can face a '*' byte, this is the matching relation.
  lemma {:induction false} MatchesLiteral(ts: seq<Token>, name: bytes)
    requires STAR !in name || Star !in ts
    requires Matches(ts, name)
    ensures Literal(ts, name)
    decreases |ts|, |name|
  {
    if ts != [] {
      assert ts[0] in ts;
      if !ts[0].Star? || Matches(ts[1..], name) {
        MatchesLiteral(ts[1..], if ts[0].Star? then name else name[1..]);
      } else {
        MatchesLiteral(ts, name[1..]);
      }
    }
  }

  // The loop is exactly the matching relation whenever the name holds no '*' byte or the
  // pattern holds no star.
  lemma Correct(p: bytes, name: bytes)
    requires STAR !in name || Star !in Tokens(p)
    ensures Decides(p, name) <==> Matches(Tokens(p), name)
  {
    DecidesLiteral(p, name);
    if Matches(Tokens(p), name) {
      MatchesLiteral(Tokens(p), name);
    } else if Literal(Tokens(p), name) {
      LiteralMatches(Tokens(p), name);
    }
  }

  // ----- Exactly which names are safe -----

  function Questions(n: nat): (p: bytes)
    ensures |p| == n
  {
    if n == 0 then [] else [QUESTION] + Questions(n - 1)
  }

  function Anys(n: nat): seq<Token> {
    if n == 0 then [] else [Any] + Anys(n - 1)
  }

  // A pattern that a name with a '*' byte at position i matches, but that the loop rejects.
  function Breaker(name: bytes, i: nat): bytes
    requires i < |name|
  {
    Questions(i) + [STAR] + Questions(|name| - i)
  }

  lemma {:induction false} QuestionTokens(n: nat, rest: bytes)
    ensures Tokens(Questions(n) + rest) == Anys(n) + Tokens(rest)
  {
    if n == 0 {
      Unit(rest);
      Unit(Tokens(rest));
    } else {
      QuestionTokens(n - 1, rest);
      Assoc([QUESTION], Questions(n - 1), rest);
      DropHead([QUESTION], Questions(n - 1) + rest);
      Assoc([Any], Anys(n - 1), Tokens(rest));
    }
  }

  lemma {:induction false} AnysShift(n: nat, ts: seq<Token>, name: bytes)
    requires n <= |name|
    ensures Matches(Anys(n) + ts, name) <==> Matches(ts, name[n..])
    ensures Literal(Anys(n) + ts, name) <==> Literal(ts, name[n..])
  {
    if n == 0 {
      Unit(ts);
    } else {
      AnysShift(n - 1, ts, name[1..]);
      Assoc([Any], Anys(n - 1), ts);
      DropHead([Any], Anys(n - 1) + ts);
      assert name[1..][n - 1..] == name[n..];
    }
  }

  lemma {:induction false} AnysLength(n: nat, name: bytes)
    ensures Matches(Anys(n), name) <==> |name| == n
  {
    if n > 0 && name != [] {
      AnysLength(n - 1, name[1..]);
      DropHead([Any], Anys(n - 1));
    }
  }

  lemma BreakerTokens(name: bytes, i: nat)
    requires i < |name|
    ensures Tokens(Breaker(name, i)) == Anys(i) + ([Star] + Anys(|name| - i))
  {
    var n := |name| - i;
    Assoc(Questions(i), [STAR], Questions(n));
    QuestionTokens(i, [STAR] + Questions(n));
    QuestionTokens(n, []);
    Unit(Questions(n));
    Unit(Anys(n));
    DropHead([STAR], Questions(n));
  }

  lemma BreakerBreaks(name: bytes, i: nat)
    requires i < |name| && name[i] == STAR
    ensures Matches(Tokens(Breaker(name, i)), name)
    ensures !Decides(Breaker(name, i), name)
  {
    hide Decides, Tokens, Breaker;
    var n := |name| - i;
    var p := Breaker(name, i);
    BreakerTokens(name, i);
    AnysShift(i, [Star] + Anys(n), name);
    DropHead([Star], Anys(n));
    AnysLength(n, name[i..]);
    AnysLength(n, name[i..][1..]);
    if Literal(Anys(n), name[i..][1..]) {
      LiteralMatches(Anys(n), name[i..][1..]);
    }
    if Decides(p, name) {
      Sound(p, name);
    }
  }

  // A name is matched correctly by every pattern exactly when it holds no '*' byte.
  lemma SafeNames(name: bytes)
    ensures (forall p :: Decides(p, name) <==> Matches(Tokens(p), name)) <==> STAR !in name
  {
    if STAR !in name {
      forall p ensures Decides(p, name) <==> Matches(Tokens(p), name) {
        Correct(p, name);
      }
    } else {
      var i :| 0 <= i < |name| && name[i] == STAR;
      BreakerBreaks(name, i);
    }
  }

  // ----- Exactly which patterns are safe -----

  // A class such as [] or [z-a] that no byte fits.
  ghost predicate Hopeless(t: Token) {
    !t.Star? && forall c: byte :: !Fits(t, c)
  }

  lemma {:induction false} HopelessNeverMatches(ts: seq<Token>, k: nat, name: bytes)
    requires k < |ts| && Hopeless(ts[k])
    ensures !Matches(ts, name)
    decreases |ts|, |name|
  {
    if k > 0 {
      HopelessNeverMatches(ts[1..], k - 1, if ts[0].Star? || name == [] then name else name[1..]);
    }
    if ts[0].Star? && name != [] {
      HopelessNeverMatches(ts, k, name[1..]);
    }
  }

  // A name with one fitting byte for each token.
  lemma {:induction false} Filling(ts: seq<Token>) returns (name: bytes)
    requires Star !in ts && forall k :: 0 <= k < |ts| ==> !Hopeless(ts[k])
    ensures Matches(ts, name) && |name| == |ts|
  {
    name := [];
    if ts != [] {
      assert ts[0] in ts;
      var c: byte :| Fits(ts[0], c);
      var rest := Filling(ts[1..]);
      name := [c] + rest;
      DropHead([c], rest);
    }
  }

  lemma {:induction false} LiteralLength(ts: seq<Token>, name: bytes)
    requires Star !in ts && Literal(ts, name)
    ensures |name| == |ts|
  {
    if ts != [] {
      assert ts[0] in ts;
      LiteralLength(ts[1..], name[1..]);
    }
  }

  // A name that faces every star with a '*' byte, and has one byte more behind the last.
  lemma {:induction false} PatternBreaker(ts: seq<Token>) returns (name: bytes)
    requires Star in ts && forall k :: 0 <= k < |ts| ==> !Hopeless(ts[k])
    ensures Matches(ts, name) && !Literal(ts, name)
  {
    if Star in ts[1..] {
      var b := STAR;
      if !ts[0].Star? {
        b :| Fits(ts[0], b);
      }
      var rest := PatternBreaker(ts[1..]);
      name := [b] + rest;
      DropHead([b], rest);
      assert ts[0].Star? ==> Matches(ts, rest);
    } else {
      var rest := Filling(ts[1..]);
      name := [STAR, STAR] + rest;
      DropHead([STAR], [STAR] + rest);
      Assoc([STAR], [STAR], rest);
      StarSkips(ts, [STAR, STAR], rest);
      if Literal(ts[1..], [STAR] + rest) {
        LiteralLength(ts[1..], [STAR] + rest);
      }
    }
  }

  // A pattern treats every name correctly exactly when it holds no star, or a class that
  // nothing fits.
  lemma SafePatterns(p: bytes)
    ensures (forall name :: Decides(p, name) <==> Matches(Tokens(p), name)) <==>
            Star !in Tokens(p) || exists k :: 0 <= k < |Tokens(p)| && Hopeless(Tokens(p)[k])
  {
    hide Decides, Tokens, Hopeless, Matches, Literal;
    var ts := Tokens(p);
    if Star !in ts {
      forall name ensures Decides(p, name) <==> Matches(ts, name) {
        Correct(p, name);
      }
    } else if k :| 0 <= k < |ts| && Hopeless(ts[k]) {
      forall name ensures Decides(p, name) <==> Matches(ts, name) {
        HopelessNeverMatches(ts, k, name);
        if Decides(p, name) {
          Sound(p, name);
        }
      }
    } else {
      var name := PatternBreaker(ts);
      DecidesLiteral(p, name);
    }
  }
}
