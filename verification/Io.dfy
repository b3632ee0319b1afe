// Decimal output and the tokenizer (src/io.rs), and the checked decimal reader of job
// specifiers (src/commands/exec/mod.rs).
module Io {
  import opened Bytes

  const U64_LIMIT: nat := 0x1_0000_0000_0000_0000

  // ----- Decimal numbers -----

  function Digit(d: nat): (b: byte)
    requires d < 10
    ensures IsDigit(b)
  {
    ZERO + d
  }

  function Decimal(n: nat): (text: bytes)
    ensures text != [] && AllDigits(text)
  {
    if n < 10 then [Digit(n)] else Decimal(n / 10) + [Digit(n % 10)]
  }

  predicate AllDigits(text: bytes) {
    forall k :: 0 <= k < |text| ==> IsDigit(text[k])
  }

  function Value(text: bytes): nat
    requires AllDigits(text)
  {
    if text == [] then 0
    else Value(text[..|text| - 1]) * 10 + (text[|text| - 1] - ZERO)
  }

  lemma {:induction false} ValueOfDecimal(n: nat)
    ensures Value(Decimal(n)) == n
  {
    var text := Decimal(n);
    if n < 10 {
      assert text[..0] == [];
    } else {
      ValueOfDecimal(n / 10);
      assert text[..|text| - 1] == Decimal(n / 10);
    }
  }

  // The digits, last one first: 48 is the byte of 0.
  lemma DecimalDigits(n: nat, d: nat)
    requires d < 10
    ensures Decimal(d) == [48 + d]
    ensures n > 0 ==> Decimal(10 * n + d) == Decimal(n) + [48 + d]
  {
  }

  // Leading zeros count for nothing.
  function Zeros(k: nat): (text: bytes)
    ensures |text| == k && AllDigits(text)
  {
    seq(k, _ => 48)
  }

  lemma {:induction false} ValueOfZeros(k: nat, ds: bytes)
    requires AllDigits(ds)
    ensures Value(Zeros(k) + ds) == Value(ds)
    decreases k + |ds|
  {
    var text := Zeros(k) + ds;
    if ds != [] {
      ValueOfZeros(k, ds[..|ds| - 1]);
      assert text[..|text| - 1] == Zeros(k) + ds[..|ds| - 1];
    } else if k > 0 {
      ValueOfZeros(k - 1, []);
      assert text[..k - 1] == Zeros(k - 1) + [];
    }
  }

  // A longer digit string never has a smaller value.
  lemma {:induction false} ValueGrows(text: bytes, k: nat)
    requires AllDigits(text) && k <= |text|
    ensures Value(text[..k]) <= Value(text)
  {
    if k < |text| {
      assert text[..|text| - 1][..k] == text[..k];
      ValueGrows(text[..|text| - 1], k);
    } else {
      assert text[..k] == text;
    }
  }

  function Pow10(k: nat): nat {
    if k == 0 then 1 else 10 * Pow10(k - 1)
  }

  // 20 digits are enough for every u64.
  lemma U64Digits()
    ensures U64_LIMIT <= Pow10(20)
  {
    assert Pow10(5) == 100_000;
    assert Pow10(10) == 10_000_000_000;
    assert Pow10(15) == 1_000_000_000_000_000;
  }

  // Moving the last digit of n in front of the digits already produced.
  lemma DigitStep(n: nat, i: nat, done: bytes)
    requires 0 < n < Pow10(i)
    ensures i > 0 && n / 10 < Pow10(i - 1)
    ensures Pending(n) + done == Pending(n / 10) + ([Digit(n % 10)] + done)
  {
    assert Pending(n) + done == Pending(n / 10) + [Digit(n % 10)] + done;
  }

  function Pending(n: nat): bytes {
    if n == 0 then [] else Decimal(n)
  }

  // The digits go into a 20-byte buffer from the right; the result is what is written out.
  method WriteU64(value: nat) returns (text: bytes)
    requires value < U64_LIMIT
    ensures text == Decimal(value)
  {
    if value == 0 {
      return [ZERO];
    }
    PendingAll(value);
    hide Pow10, Pending, Decimal, AllDigits;
    var buf := new byte[20](_ => 0);
    var i: nat := buf.Length;
    var n: nat := value;
    U64Digits();
    assert buf[20..] == [];
    while n > 0
      invariant i <= 20
      invariant n < Pow10(i)
      invariant Pending(n) + buf[i..] == Decimal(value)
    {
      ghost var done := buf[i..];
      DigitStep(n, i, done);
      i := i - 1;
      buf[i] := ZERO + n % 10;
      assert buf[i..] == [Digit(n % 10)] + done;
      n := n / 10;
    }
    text := buf[i..];
    assert [] + text == text;
  }

  lemma PendingAll(n: nat)
    requires n > 0
    ensures Pending(n) + [] == Decimal(n) && Pending(0) == []
  {
  }

  // The job id in a specifier such as %12: 0 when it is malformed or too large.
  function JobId(arg: bytes): nat {
    if |arg| > 1 && arg[0] == PERCENT && AllDigits(arg[1..]) && Value(arg[1..]) < U64_LIMIT
    then Value(arg[1..]) else 0
  }

  method ParseJobId(arg: bytes) returns (id: nat)
    ensures id == JobId(arg)
  {
    if |arg| > 1 && arg[0] == PERCENT {
      id := 0;
      var k := 1;
      while k < |arg|
        invariant 1 <= k <= |arg|
        invariant AllDigits(arg[1..k]) && id == Value(arg[1..k]) && id < U64_LIMIT
      {
        var b := arg[k];
        if !IsDigit(b) {
          assert arg[1..][k - 1] == b;
          return 0;
        }
        assert arg[1..k + 1] == arg[1..k] + [b];
        if id * 10 >= U64_LIMIT || id * 10 + (b - ZERO) >= U64_LIMIT {
          if AllDigits(arg[1..]) {
            ValueGrows(arg[1..], k);
            assert arg[1..][..k] == arg[1..k + 1];
          }
          return 0;
        }
        id := id * 10 + (b - ZERO);
        k := k + 1;
      }
      assert arg[1..k] == arg[1..];
    } else {
      id := 0;
    }
  }

  // Every id that is printed and typed back behind a '%' is read as itself.
  lemma JobIdRoundTrip(n: nat)
    requires n < U64_LIMIT
    ensures JobId([PERCENT] + Decimal(n)) == n
  {
    ValueOfDecimal(n);
    assert ([PERCENT] + Decimal(n))[1..] == Decimal(n);
  }

  // Every specifier: a % (37) and digits give the number, if it fits into 64 bits; anything
  // else gives 0.
  lemma JobIdOfDigits(k: nat, n: nat)
    ensures JobId([37] + (Zeros(k) + Decimal(n))) == if n < U64_LIMIT then n else 0
  {
    ValueOfDecimal(n);
    ValueOfZeros(k, Decimal(n));
    DropHead([37], Zeros(k) + Decimal(n));
  }

  lemma JobIdOfOthers(arg: bytes)
    requires |arg| < 2 || arg[0] != 37 || exists k :: 1 <= k < |arg| && !(48 <= arg[k] <= 57)
    ensures JobId(arg) == 0
  {
    if |arg| >= 2 && arg[0] == 37 {
      var k :| 1 <= k < |arg| && !(48 <= arg[k] <= 57);
      assert arg[1..][k - 1] == arg[k];
    }
  }

  // ----- Blank-separated words -----

  datatype Slice = Slice(off: nat, len: nat)

  function Text(line: bytes, s: Slice): bytes {
    if s.off + s.len <= |line| then line[s.off..s.off + s.len] else []
  }

  // The first position at or after i that is not blank.
  function SkipBlanks(line: bytes, i: nat): (j: nat)
    requires i <= |line|
    ensures i <= j <= |line|
    ensures j < |line| ==> !IsBlank(line[j])
    ensures forall k :: i <= k < j ==> IsBlank(line[k])
    decreases |line| - i
  {
    if i < |line| && IsBlank(line[i]) then SkipBlanks(line, i + 1) else i
  }

  // Does b end a word? The pipeline parser also stops at '|', the tokenizer does not.
  predicate Stops(b: byte, bar: bool) {
    IsBlank(b) || (bar && b == PIPE)
  }

  function WordEnd(line: bytes, i: nat, bar: bool): (j: nat)
    requires i <= |line|
    ensures i <= j <= |line|
    ensures j < |line| ==> Stops(line[j], bar)
    ensures forall k :: i <= k < j ==> !Stops(line[k], bar)
    decreases |line| - i
  {
    if i < |line| && !Stops(line[i], bar) then WordEnd(line, i + 1, bar) else i
  }

  method ScanBlanks(line: bytes, from: nat) returns (i: nat)
    requires from <= |line|
    ensures i == SkipBlanks(line, from)
  {
    i := from;
    while i < |line| && IsBlank(line[i])
      invariant from <= i <= |line|
      invariant SkipBlanks(line, i) == SkipBlanks(line, from)
    {
      i := i + 1;
    }
  }

  method ScanWord(line: bytes, from: nat, bar: bool) returns (i: nat)
    requires from <= |line|
    ensures i == WordEnd(line, from, bar)
  {
    i := from;
    while i < |line| && !Stops(line[i], bar)
      invariant from <= i <= |line|
      invariant WordEnd(line, i, bar) == WordEnd(line, from, bar)
    {
      i := i + 1;
    }
  }

  // All words of the line from position i on, at most max of them.
  function Runs(line: bytes, i: nat, max: nat): seq<Slice>
    requires i <= |line|
    decreases max
  {
    var start := SkipBlanks(line, i);
    if max == 0 || start == |line| then []
    else
      var end := WordEnd(line, start, false);
      [Slice(start, end - start)] + Runs(line, end, max - 1)
  }

  lemma RunsStep(line: bytes, i: nat, max: nat)
    requires i <= |line|
    ensures var start := SkipBlanks(line, i);
            var end := WordEnd(line, start, false);
            if max == 0 || start == |line| then Runs(line, i, max) == []
            else Runs(line, i, max) == [Slice(start, end - start)] + Runs(line, end, max - 1)
    ensures i == |line| ==> Runs(line, i, max) == []
  {
  }

  method Tokenize(line: bytes, tokens: array<Slice>) returns (count: nat)
    requires tokens.Length == 16
    modifies tokens
    ensures count <= 16 && tokens[..count] == Runs(line, 0, 16)
  {
    hide SkipBlanks, WordEnd, Runs;
    count := 0;
    var i := 0;
    ghost var all := Runs(line, 0, 16);
    while i < |line| && count < tokens.Length
      invariant 0 <= i <= |line| && count <= 16 && count <= |all|
      invariant tokens[..count] == all[..count]
      invariant all[count..] == Runs(line, i, 16 - count)
    {
      RunsStep(line, i, 16 - count);
      ghost var rest := all[count..];
      i := ScanBlanks(line, i);
      if i >= |line| {
        break;
      }
      var start := i;
      i := ScanWord(line, i, false);
      tokens[count] := Slice(start, i - start);
      assert all[count] == rest[0];
      assert all[count + 1..] == rest[1..];
      count := count + 1;
    }
    RunsStep(line, i, 16 - count);
  }

  // ----- What the words are -----

  ghost predicate BlankBetween(line: bytes, from: nat, to: nat)
    requires from <= to <= |line|
  {
    forall k :: from <= k < to ==> IsBlank(line[k])
  }

  // A run is a non-empty stretch of non-blank bytes that cannot be made longer.
  ghost predicate MaximalRun(line: bytes, s: Slice) {
    && 0 < s.len && s.off + s.len <= |line|
    && (forall k :: s.off <= k < s.off + s.len ==> !IsBlank(line[k]))
    && (s.off == 0 || IsBlank(line[s.off - 1]))
    && (s.off + s.len == |line| || IsBlank(line[s.off + s.len]))
  }

  // ts are maximal runs, in order, with only blanks before, between and, unless max of
  // them were found, after them.
  ghost predicate Covers(line: bytes, i: nat, ts: seq<Slice>, max: nat)
    requires i <= |line|
    decreases |ts|
  {
    if ts == [] then max == 0 || BlankBetween(line, i, |line|)
    else
      && max > 0
      && MaximalRun(line, ts[0]) && i <= ts[0].off && BlankBetween(line, i, ts[0].off)
      && Covers(line, ts[0].off + ts[0].len, ts[1..], max - 1)
  }

  lemma {:induction false} RunsCover(line: bytes, i: nat, max: nat)
    requires i <= |line| && (i == 0 || i == |line| || IsBlank(line[i]))
    ensures Covers(line, i, Runs(line, i, max), max) && |Runs(line, i, max)| <= max
    decreases max
  {
    var start := SkipBlanks(line, i);
    if max > 0 && start < |line| {
      var end := WordEnd(line, start, false);
      RunsCover(line, end, max - 1);
      assert Runs(line, i, max)[1..] == Runs(line, end, max - 1);
    }
  }

  // These facts leave no choice: they determine the word list.
  lemma {:induction false} CoverUnique(line: bytes, i: nat, ts: seq<Slice>, max: nat)
    requires i <= |line| && Covers(line, i, ts, max)
    ensures ts == Runs(line, i, max)
    decreases |ts|
  {
    var start := SkipBlanks(line, i);
    if ts != [] {
      var s := ts[0];
      assert !IsBlank(line[s.off]);
      assert start == s.off;
      var end := WordEnd(line, start, false);
      assert end == s.off + s.len;
      CoverUnique(line, end, ts[1..], max - 1);
    } else if start < |line| {
      assert max == 0;
    }
  }

  // All words from position i on, however many.
  function AllRuns(line: bytes, i: nat): seq<Slice>
    requires i <= |line|
    decreases |line| - i
  {
    var start := SkipBlanks(line, i);
    if start == |line| then []
    else
      var end := WordEnd(line, start, false);
      [Slice(start, end - start)] + AllRuns(line, end)
  }

  lemma AllRunsStep(line: bytes, i: nat)
    requires i <= |line|
    ensures var start := SkipBlanks(line, i);
            AllRuns(line, i) ==
            if start == |line| then []
            else [Slice(start, WordEnd(line, start, false) - start)] + AllRuns(line, WordEnd(line, start, false))
  {
  }

  // A limit cuts this list short.
  lemma {:induction false} RunsAll(line: bytes, i: nat, max: nat)
    requires i <= |line|
    ensures Runs(line, i, max) == Take(AllRuns(line, i), max)
    decreases max
  {
    var start := SkipBlanks(line, i);
    if max > 0 && start < |line| {
      RunsAll(line, WordEnd(line, start, false), max - 1);
    }
  }

  // The texts that slices stand for.
  function Texts(line: bytes, args: seq<Slice>): (r: seq<bytes>)
    ensures |r| == |args| && forall k :: 0 <= k < |r| ==> r[k] == Text(line, args[k])
  {
    seq(|args|, k requires 0 <= k < |args| => Text(line, args[k]))
  }
}
