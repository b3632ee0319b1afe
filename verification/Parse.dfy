// The pipeline parser (src/pipeline/parse.rs, src/pipeline/mod.rs).
module Parse {
  import opened Bytes
  import opened Io

  const MAX_SEGMENTS: nat := 8
  const MAX_ARGS: nat := 16

  datatype Pipeline = Pipeline(segments: seq<seq<Slice>>, stdoutFile: Slice, stdinFile: Slice, background: bool)

  const NO_FILE: Slice := Slice(0, 0)

  // ----- The parser as functions -----

  predicate IsSep(b: byte) {
    IsBlank(b) || b == PIPE
  }

  function SkipSeps(line: bytes, i: nat): (j: nat)
    requires i <= |line|
    ensures i <= j <= |line|
    ensures j < |line| ==> !IsSep(line[j])
    ensures forall k :: i <= k < j ==> IsSep(line[k])
    decreases |line| - i
  {
    if i < |line| && IsSep(line[i]) then SkipSeps(line, i + 1) else i
  }

  // Where the parser stands, the arguments of the current segment, the redirect targets.
  datatype Progress = Progress(i: nat, args: seq<Slice>, out: Slice, inn: Slice)

  // One round of the segment loop, from a position that is neither blank nor '|'.
  function TakeItem(line: bytes, s: Progress): (r: Progress)
    requires s.i < |line| && !IsSep(line[s.i])
    ensures s.i < r.i <= |line|
  {
    if line[s.i] == GREATER || line[s.i] == LESS then
      var start := SkipBlanks(line, s.i + 1);
      var end := WordEnd(line, start, true);
      var target := Slice(start, end - start);
      if line[s.i] == GREATER then s.(i := end, out := target) else s.(i := end, inn := target)
    else
      var end := WordEnd(line, s.i, true);
      s.(i := end, args := s.args + [Slice(s.i, end - s.i)])
  }

  // The segment loop.
  function TakeSegment(line: bytes, s: Progress): (r: Progress)
    requires s.i <= |line|
    ensures s.i <= r.i <= |line|
    ensures s.i < |line| && !IsSep(line[s.i]) && |s.args| < MAX_ARGS ==> s.i < r.i
    decreases |line| - s.i
  {
    if s.i == |line| || line[s.i] == PIPE || |s.args| >= MAX_ARGS then s
    else
      var j := SkipBlanks(line, s.i);
      if j == |line| || line[j] == PIPE then s.(i := j)
      else TakeSegment(line, TakeItem(line, s.(i := j)))
  }

  // The outer loop, given the segments found so far.
  function TakeSegments(line: bytes, segs: seq<seq<Slice>>, s: Progress): Pipeline
    requires s.i <= |line|
    decreases |line| - s.i
  {
    var j := SkipSeps(line, s.i);
    if s.i == |line| || |segs| >= MAX_SEGMENTS || j == |line| then
      Pipeline(segs, s.out, s.inn, false)
    else
      var r := TakeSegment(line, s.(i := j, args := []));
      TakeSegments(line, segs + [r.args], r)
  }

  // A final "&" argument is not an argument but the background flag.
  function TakeAmpersand(line: bytes, p: Pipeline): Pipeline {
    if p.segments != [] && Last(p.segments) != [] && Text(line, Last(Last(p.segments))) == [AMP]
    then p.(segments := Front(p.segments) + [Front(Last(p.segments))], background := true)
    else p
  }

  function Last<T>(s: seq<T>): T
    requires s != []
  {
    s[|s| - 1]
  }

  function Front<T>(s: seq<T>): seq<T>
    requires s != []
  {
    s[..|s| - 1]
  }

  function Parsed(line: bytes): Pipeline {
    TakeAmpersand(line, TakeSegments(line, [], Progress(0, [], NO_FILE, NO_FILE)))
  }

  // ----- The parser's loops -----

  method ScanSeps(line: bytes, from: nat) returns (i: nat)
    requires from <= |line|
    ensures i == SkipSeps(line, from)
  {
    i := from;
    while i < |line| && (IsBlank(line[i]) || line[i] == PIPE)
      invariant from <= i <= |line|
      invariant SkipSeps(line, i) == SkipSeps(line, from)
    {
      i := i + 1;
    }
  }

  lemma SegmentStep(line: bytes, s: Progress)
    requires s.i < |line| && line[s.i] != PIPE && |s.args| < MAX_ARGS
    ensures var j := SkipBlanks(line, s.i);
            TakeSegment(line, s) ==
            if j == |line| || line[j] == PIPE then s.(i := j)
            else TakeSegment(line, TakeItem(line, s.(i := j)))
  {
  }

  lemma SegmentEnds(line: bytes, s: Progress)
    requires s.i <= |line|
    requires s.i == |line| || line[s.i] == PIPE || |s.args| >= MAX_ARGS
    ensures TakeSegment(line, s) == s
  {
  }

  // The body of the segment loop behind the blanks.
  method ParseItem(line: bytes, s: Progress) returns (r: Progress)
    requires s.i < |line| && !IsSep(line[s.i])
    ensures r == TakeItem(line, s)
  {
    hide SkipBlanks, WordEnd;
    var i := s.i;
    if line[i] == GREATER || line[i] == LESS {
      var op := line[i];
      i := ScanBlanks(line, i + 1);
      var start := i;
      i := ScanWord(line, i, true);
      if op == GREATER {
        return s.(i := i, out := Slice(start, i - start));
      } else {
        return s.(i := i, inn := Slice(start, i - start));
      }
    }
    var start := i;
    i := ScanWord(line, i, true);
    r := s.(i := i, args := s.args + [Slice(start, i - start)]);
  }

  method ParseSegment(line: bytes, from: Progress) returns (s: Progress)
    requires from.i <= |line|
    ensures s == TakeSegment(line, from)
  {
    hide SkipBlanks, WordEnd, TakeSegment, TakeItem;
    s := from;
    while s.i < |line| && line[s.i] != PIPE && |s.args| < MAX_ARGS
      invariant s.i <= |line|
      invariant TakeSegment(line, s) == TakeSegment(line, from)
      decreases |line| - s.i
    {
      SegmentStep(line, s);
      var i := ScanBlanks(line, s.i);
      s := s.(i := i);
      if i >= |line| || line[i] == PIPE {
        return;
      }
      s := ParseItem(line, s);
    }
    SegmentEnds(line, s);
  }

  method ParseLine(line: bytes) returns (p: Pipeline)
    ensures p == Parsed(line)
  {
    hide SkipSeps, TakeSegment;
    var segments: seq<seq<Slice>> := [];
    var s := Progress(0, [], NO_FILE, NO_FILE);
    while s.i < |line| && |segments| < MAX_SEGMENTS
      invariant s.i <= |line|
      invariant TakeSegments(line, segments, s) == TakeSegments(line, [], Progress(0, [], NO_FILE, NO_FILE))
      decreases |line| - s.i
    {
      var i := ScanSeps(line, s.i);
      if i >= |line| {
        break;
      }
      s := ParseSegment(line, s.(i := i, args := []));
      segments := segments + [s.args];
    }
    p := Pipeline(segments, s.out, s.inn, false);
    if |segments| > 0 && |segments[|segments| - 1]| > 0 {
      var last := segments[|segments| - 1];
      var arg := last[|last| - 1];
      if arg.len == 1 && arg.off < |line| && line[arg.off] == AMP {
        p := p.(segments := segments[..|segments| - 1] + [last[..|last| - 1]], background := true);
      }
    }
  }

  // ----- The arguments handed to a command -----

  const ARG_MAX: nat := 63

  lemma TakeText(line: bytes, s: Slice, n: nat)
    requires s.off + s.len <= |line| && n == Min(s.len, ARG_MAX)
    ensures Take(Text(line, s), ARG_MAX) == line[s.off..s.off + n]
  {
    assert line[s.off..s.off + s.len][..n] == line[s.off..s.off + n];
  }

  function ArgTexts(line: bytes, seg: seq<Slice>): (r: seq<bytes>)
    ensures |r| == |seg|
    ensures forall k :: 0 <= k < |seg| ==> r[k] == Take(Text(line, seg[k]), ARG_MAX)
  {
    seq(|seg|, k requires 0 <= k < |seg| => Take(Text(line, seg[k]), ARG_MAX))
  }

  // Copies the argument texts out of the line, each cut to 63 bytes.
  method SegToArgs(line: bytes, seg: seq<Slice>) returns (args: seq<bytes>)
    requires ArgsInLine(line, seg)
    ensures args == ArgTexts(line, seg)
  {
    hide Take, Text;
    args := [];
    var k := 0;
    while k < |seg|
      invariant 0 <= k <= |seg| && args == ArgTexts(line, seg)[..k]
    {
      var n := Min(seg[k].len, ARG_MAX);
      TakeText(line, seg[k], n);
      args := args + [line[seg[k].off..seg[k].off + n]];
      k := k + 1;
    }
  }

  ghost predicate SliceIn(line: bytes, s: Slice) {
    s.off + s.len <= |line|
  }

  ghost predicate ArgsInLine(line: bytes, args: seq<Slice>) {
    forall k :: 0 <= k < |args| ==> SliceIn(line, args[k])
  }

  ghost predicate InLine(line: bytes, segs: seq<seq<Slice>>) {
    forall i :: 0 <= i < |segs| ==> ArgsInLine(line, segs[i])
  }

  ghost predicate TargetsIn(line: bytes, s: Progress) {
    SliceIn(line, s.out) && SliceIn(line, s.inn)
  }

  lemma {:induction false} SegmentInLine(line: bytes, s: Progress)
    requires s.i <= |line| && ArgsInLine(line, s.args) && TargetsIn(line, s)
    ensures ArgsInLine(line, TakeSegment(line, s).args) && TargetsIn(line, TakeSegment(line, s))
    decreases |line| - s.i
  {
    hide SkipBlanks, WordEnd, TakeSegment;
    if s.i < |line| && line[s.i] != PIPE && |s.args| < MAX_ARGS {
      SegmentStep(line, s);
      var j := SkipBlanks(line, s.i);
      if j < |line| && line[j] != PIPE {
        SegmentInLine(line, TakeItem(line, s.(i := j)));
      }
    } else {
      SegmentEnds(line, s);
    }
  }

  lemma {:induction false} SegmentsInLine(line: bytes, done: seq<seq<Slice>>, s: Progress)
    requires s.i <= |line| && |done| <= MAX_SEGMENTS && InLine(line, done) && TargetsIn(line, s)
    ensures var p := TakeSegments(line, done, s);
            && InLine(line, p.segments) && |p.segments| <= MAX_SEGMENTS
            && SliceIn(line, p.stdoutFile) && SliceIn(line, p.stdinFile)
    decreases |line| - s.i
  {
    hide SkipSeps, TakeSegment, ArgsInLine, SliceIn;
    var j := SkipSeps(line, s.i);
    if s.i < |line| && |done| < MAX_SEGMENTS && j < |line| {
      var r := TakeSegment(line, s.(i := j, args := []));
      assert ArgsInLine(line, []) by { NoArgs(line); }
      SegmentInLine(line, s.(i := j, args := []));
      SegmentsInLine(line, done + [r.args], r);
    }
  }

  lemma NoArgs(line: bytes)
    ensures ArgsInLine(line, [])
  {
  }

  // Every slice the parser returns lies within the line, so the copies never leave it,
  // whatever was typed.
  lemma ParsedInLine(line: bytes)
    ensures InLine(line, Parsed(line).segments) && |Parsed(line).segments| <= MAX_SEGMENTS
    ensures SliceIn(line, Parsed(line).stdoutFile) && SliceIn(line, Parsed(line).stdinFile)
  {
    hide TakeSegments;
    SegmentsInLine(line, [], Progress(0, [], NO_FILE, NO_FILE));
    var p := TakeSegments(line, [], Progress(0, [], NO_FILE, NO_FILE));
    assert p.segments != [] ==> ArgsInLine(line, Last(p.segments));
    assert p.segments != [] && Last(p.segments) != [] ==> ArgsInLine(line, Front(Last(p.segments)));
  }
}
