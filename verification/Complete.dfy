// Tab completion (src/features/service/mod.rs).
module Complete {
  import opened Bytes
  import opened Buffer
  import opened Dirs

  function BuiltinNames(): seq<string> {
    ["ls", "cat", "cp", "mv", "rm", "mkdir", "touch", "stat", "cd", "pwd", "echo", "whoami", "uname",
    "date", "clear", "help", "exit", "exec", "run", "ver", "export", "set", "unset", "jobs", "fg",
    "bg", "source"]
  }

  function Builtins(): (names: seq<bytes>)
    ensures |names| == |BuiltinNames()|
    ensures forall k :: 0 <= k < |BuiltinNames()| ==> names[k] == Ascii(BuiltinNames()[k])
  {
    seq(|BuiltinNames()|, k requires 0 <= k < |BuiltinNames()| => Ascii(BuiltinNames()[k]))
  }

  datatype TabResult = TabResult(line: bytes, cursor: nat, printed: bool)

  // ----- The token and its candidates -----

  // Start of the blank-free stretch that ends at the cursor.
  function TokStart(line: bytes, cursor: nat): (i: nat)
    requires cursor <= |line|
    ensures i <= cursor
    ensures forall k :: i <= k < cursor ==> !IsBlank(line[k])
    ensures i > 0 ==> IsBlank(line[i - 1])
  {
    if cursor > 0 && !IsBlank(line[cursor - 1]) then TokStart(line, cursor - 1) else cursor
  }

  predicate FirstWord(line: bytes, start: nat)
    requires start <= |line|
  {
    forall k :: 0 <= k < start ==> IsBlank(line[k])
  }

  function WithPrefix(names: seq<bytes>, prefix: bytes): (r: seq<bytes>)
    ensures forall k :: 0 <= k < |r| ==> prefix <= r[k] && r[k] in names
  {
    if names == [] then []
    else (if prefix <= names[0] then [names[0]] else []) + WithPrefix(names[1..], prefix)
  }

  function Candidates(line: bytes, cursor: nat, ls: Listing): seq<bytes>
    requires cursor <= |line|
  {
    var start := TokStart(line, cursor);
    var tok := line[start..cursor];
    (if FirstWord(line, start) then WithPrefix(Builtins(), tok) else []) +
    WithPrefix(Entries(ls, DirPart(tok)), NamePart(tok))
  }

  // ----- Longest common prefix -----

  ghost predicate IsCommon(names: seq<bytes>, n: nat)
    requires names != []
  {
    n <= |names[0]| && forall k :: 0 <= k < |names| ==> names[0][..n] <= names[k]
  }

  function Agree(a: bytes, b: bytes, max: nat): (n: nat)
    requires max <= |a| && max <= |b|
    ensures n <= max && a[..n] == b[..n] && (n < max ==> a[n] != b[n])
    ensures forall k :: 0 <= k < n ==> a[k] == b[k]
  {
    if max == 0 || a[0] != b[0] then 0
    else
      var n := 1 + Agree(a[1..], b[1..], max - 1);
      assert a[..n] == [a[0]] + a[1..][..n - 1];
      assert b[..n] == [b[0]] + b[1..][..n - 1];
      n
  }

  // The loop that shrinks the common length over the remaining candidates.
  function Shrink(first: bytes, common: nat, rest: seq<bytes>): (n: nat)
    requires common <= |first|
    ensures n <= common
  {
    if rest == [] then common
    else Shrink(first, Agree(first, rest[0], Min(common, |rest[0]|)), rest[1..])
  }

  function CommonLen(names: seq<bytes>): (n: nat)
    requires names != []
    ensures n <= |names[0]|
  {
    Shrink(names[0], |names[0]|, names[1..])
  }

  lemma {:induction false} ShrinkIsCommon(first: bytes, common: nat, rest: seq<bytes>, n: nat)
    requires common <= |first|
    ensures n <= Shrink(first, common, rest) <==>
            n <= common && forall k :: 0 <= k < |rest| ==> first[..n] <= rest[k]
  {
    if rest != [] {
      var m := Agree(first, rest[0], Min(common, |rest[0]|));
      ShrinkIsCommon(first, m, rest[1..], n);
      AgreeIsCommon(first, rest[0], common, n);
      assert forall k :: 0 <= k < |rest| - 1 ==> rest[1..][k] == rest[k + 1];
      if n <= common && forall k :: 0 <= k < |rest| ==> first[..n] <= rest[k] {
        assert first[..n] <= rest[0];
      }
    }
  }

  lemma AgreeIsCommon(a: bytes, b: bytes, common: nat, n: nat)
    requires common <= |a|
    ensures n <= Agree(a, b, Min(common, |b|)) <==> n <= common && a[..n] <= b
  {
    var m := Agree(a, b, Min(common, |b|));
    if n <= m {
      assert a[..n] == a[..m][..n] == b[..m][..n] == b[..n];
    } else if n <= |a| {
      assert a[..n][m] == a[m];
    }
  }

  // It is the greatest length on which all candidates agree.
  lemma CommonIsLongest(names: seq<bytes>, n: nat)
    requires names != []
    ensures n <= CommonLen(names) <==> IsCommon(names, n)
  {
    ShrinkIsCommon(names[0], |names[0]|, names[1..], n);
    assert forall k :: 0 <= k < |names| - 1 ==> names[1..][k] == names[k + 1];
    if n <= |names[0]| && forall k :: 0 <= k < |names| - 1 ==> names[0][..n] <= names[1..][k] {
      forall k | 0 <= k < |names| ensures names[0][..n] <= names[k] {
        if k > 0 {
          assert names[0][..n] <= names[1..][k - 1];
        }
      }
    }
  }

  // ----- The result -----

  // What the token is replaced by.
  function Extension(tok: bytes, cands: seq<bytes>): bytes {
    if cands == [] then tok
    else if |cands| == 1 then cands[0] + [SPACE]
    else if CommonLen(cands) > |tok| then cands[0][..CommonLen(cands)]
    else tok
  }

  function Completed(line: bytes, cursor: nat, ls: Listing): TabResult
    requires cursor <= |line|
  {
    var start := TokStart(line, cursor);
    var tok := line[start..cursor];
    var cands := Candidates(line, cursor, ls);
    var ext := Extension(tok, cands);
    TabResult(Take(line[..start] + ext + line[cursor..], CAPACITY), start + |ext|, |cands| > 1)
  }

  function Listed(cands: seq<bytes>): bytes {
    if cands == [] then [] else cands[0] + [SPACE, SPACE] + Listed(cands[1..])
  }

  // What is printed: all candidates, if there are several.
  function Printed(line: bytes, cursor: nat, ls: Listing): bytes
    requires cursor <= |line|
  {
    var cands := Candidates(line, cursor, ls);
    if |cands| > 1 then [LF] + Listed(cands) + [LF] else []
  }

  // ----- The code -----

  method ScanTokStart(line: bytes, cursor: nat) returns (start: nat)
    requires cursor <= |line|
    ensures start == TokStart(line, cursor)
  {
    start := cursor;
    while start > 0 && !IsBlank(line[start - 1])
      invariant 0 <= start <= cursor && TokStart(line, start) == TokStart(line, cursor)
    {
      start := start - 1;
    }
  }

  method CollectPrefixed(names: seq<bytes>, prefix: bytes, found: seq<bytes>) returns (matches: seq<bytes>)
    ensures matches == found + WithPrefix(names, prefix)
  {
    matches := found;
    var k := 0;
    assert names[0..] == names;
    while k < |names|
      invariant 0 <= k <= |names|
      invariant matches + WithPrefix(names[k..], prefix) == found + WithPrefix(names, prefix)
    {
      ghost var before, rest := matches, WithPrefix(names[k + 1..], prefix);
      assert names[k..][1..] == names[k + 1..];
      if prefix <= names[k] {
        matches := matches + [names[k]];
        assert matches + rest == before + ([names[k]] + rest);
      }
      assert [] + rest == rest;
      k := k + 1;
    }
    assert matches + [] == matches;
  }

  method ShrinkCommon(matches: seq<bytes>) returns (common: nat)
    requires matches != []
    ensures common == CommonLen(matches)
  {
    hide Agree;
    common := |matches[0]|;
    var i := 1;
    while i < |matches|
      invariant 1 <= i <= |matches| && common <= |matches[0]|
      invariant Shrink(matches[0], common, matches[i..]) == CommonLen(matches)
    {
      var m := matches[i];
      var max := Min(common, |m|);
      assert matches[i..][1..] == matches[i + 1..];
      var j := CountAgree(matches[0], m, max);
      common := j;
      if common == 0 {
        assert Shrink(matches[0], 0, matches[i + 1..]) == 0;
        return;
      }
      i := i + 1;
    }
  }

  method CountAgree(a: bytes, b: bytes, max: nat) returns (j: nat)
    requires max <= |a| && max <= |b|
    ensures j == Agree(a, b, max)
  {
    j := 0;
    while j < max && a[j] == b[j]
      invariant 0 <= j <= max && forall k :: 0 <= k < j ==> a[k] == b[k]
    {
      j := j + 1;
    }
    ghost var n := Agree(a, b, max);
    assert j < max ==> a[j] != b[j];
  }

  method Splice(line: bytes, start: nat, ext: bytes, blank: bool, cursor: nat) returns (r: bytes)
    requires start <= cursor <= |line|
    ensures r == Take(line[..start] + (ext + if blank then [SPACE] else []) + line[cursor..], CAPACITY)
  {
    var newLine := new ByteVec();
    newLine.Extend(line[..start]);
    newLine.Extend(ext);
    if blank {
      newLine.Push(SPACE);
    }
    newLine.Extend(line[cursor..]);
    assert newLine.pushed == line[..start] + (ext + if blank then [SPACE] else []) + line[cursor..];
    r := newLine.AsSlice();
  }

  method LineToVec(line: bytes) returns (r: bytes)
    ensures r == Take(line, CAPACITY)
  {
    var v := new ByteVec();
    v.Extend(line);
    assert v.pushed == line;
    r := v.AsSlice();
  }

  method PrintList(matches: seq<bytes>) returns (out: bytes)
    ensures out == [LF] + Listed(matches) + [LF]
  {
    out := [LF];
    var k := 0;
    assert matches[0..] == matches;
    while k < |matches|
      invariant 0 <= k <= |matches|
      invariant out + Listed(matches[k..]) == [LF] + Listed(matches)
    {
      ghost var before, rest := out, Listed(matches[k + 1..]);
      assert matches[k..][1..] == matches[k + 1..];
      out := out + matches[k] + [SPACE, SPACE];
      assert out + rest == before + (matches[k] + [SPACE, SPACE] + rest);
      k := k + 1;
    }
    assert out + [] == out;
    out := out + [LF];
  }

  method CollectCandidates(line: bytes, tokStart: nat, cursor: nat, ls: Listing) returns (matches: seq<bytes>)
    requires cursor <= |line| && tokStart == TokStart(line, cursor)
    ensures matches == Candidates(line, cursor, ls)
  {
    hide TokStart, WithPrefix, Entries, DirLen, Builtins, BuiltinNames;
    var tok := line[tokStart..cursor];
    matches := [];
    if FirstWord(line, tokStart) {
      matches := CollectPrefixed(Builtins(), tok, matches);
      Unit(WithPrefix(Builtins(), tok));
    }
    matches := CollectPrefixed(Entries(ls, DirPart(tok)), NamePart(tok), matches);
  }

  // out is what is written to the terminal on the way.
  method TabComplete(line: bytes, cursor: nat, ls: Listing) returns (r: TabResult, out: bytes)
    requires cursor <= |line|
    ensures r == Completed(line, cursor, ls) && out == Printed(line, cursor, ls)
  {
    hide TokStart, CommonLen, Listed, Candidates;
    var tokStart := ScanTokStart(line, cursor);
    var tok := line[tokStart..cursor];
    var matches := CollectCandidates(line, tokStart, cursor, ls);
    WholeLine(line, tokStart, cursor);
    out := [];
    if matches == [] {
      var same := LineToVec(line);
      r := TabResult(same, cursor, false);
      return;
    }
    if |matches| == 1 {
      var newLine := Splice(line, tokStart, matches[0], true, cursor);
      r := TabResult(newLine, tokStart + |matches[0]| + 1, false);
      return;
    }
    var common := ShrinkCommon(matches);
    out := PrintList(matches);
    if common > |tok| {
      var newLine := Splice(line, tokStart, matches[0][..common], false, cursor);
      Unit(matches[0][..common]);
      r := TabResult(newLine, tokStart + common, true);
    } else {
      var same := LineToVec(line);
      r := TabResult(same, cursor, true);
    }
  }

  lemma WholeLine(line: bytes, start: nat, cursor: nat)
    requires start <= cursor <= |line|
    ensures line[..start] + line[start..cursor] + line[cursor..] == line
  {
  }

  // ----- What completion guarantees -----

  lemma CandidatesExtend(line: bytes, cursor: nat, ls: Listing, k: nat)
    requires cursor <= |line| && SLASH !in line[TokStart(line, cursor)..cursor]
    requires k < |Candidates(line, cursor, ls)|
    ensures line[TokStart(line, cursor)..cursor] <= Candidates(line, cursor, ls)[k]
  {
    hide TokStart, Entries, Builtins, BuiltinNames;
    var tok := line[TokStart(line, cursor)..cursor];
    SplitParts(tok);
    hide DirLen;
    assert NamePart(tok) == tok;
  }

  // A token without '/' is only ever extended: by nothing, by its only candidate and a blank,
  // or to the longest common prefix of all candidates. The cursor ends right behind it.
  lemma CompletionExtends(line: bytes, cursor: nat, ls: Listing)
    requires cursor <= |line| && SLASH !in line[TokStart(line, cursor)..cursor]
    ensures var start := TokStart(line, cursor);
            var tok := line[start..cursor];
            var cands := Candidates(line, cursor, ls);
            var ext := Extension(tok, cands);
            && tok <= ext
            && (|cands| > 1 ==> IsCommon(cands, |ext|) && ext == cands[0][..|ext|] &&
                                forall n: nat :: IsCommon(cands, n) ==> n <= |ext|)
            && Completed(line, cursor, ls).line == Take(line[..start] + ext + line[cursor..], CAPACITY)
            && Completed(line, cursor, ls).cursor == start + |ext|
  {
    hide TokStart, Candidates, CommonLen;
    var tok := line[TokStart(line, cursor)..cursor];
    var cands := Candidates(line, cursor, ls);
    forall k | 0 <= k < |cands| ensures tok <= cands[k] { CandidatesExtend(line, cursor, ls, k); }
    if |cands| > 1 {
      assert cands[0][..|tok|] == tok;
      CommonIsLongest(cands, |tok|);
      CommonIsLongest(cands, CommonLen(cands));
      forall n: nat | IsCommon(cands, n) ensures n <= CommonLen(cands) { CommonIsLongest(cands, n); }
    }
  }

  // The positions from j on of the names with the prefix, in increasing order.
  ghost predicate PicksPrefixed(names: seq<bytes>, prefix: bytes, j: nat, ks: seq<nat>) {
    && Increasing(ks)
    && (forall k: nat :: k in ks <==> j <= k < |names| && prefix <= names[k])
  }

  ghost predicate NamesAt(names: seq<bytes>, ks: seq<nat>, found: seq<bytes>) {
    |found| == |ks| && forall i :: 0 <= i < |ks| ==> ks[i] < |names| && found[i] == names[ks[i]]
  }

  // Main result: the candidates are the builtins that start with the token, if only blanks
  // stand before it, and then the entries of its directory that start with what follows its
  // last '/'; each of them once, and in order.
  lemma CandidatesAre(line: bytes, cursor: nat, ls: Listing)
    returns (fromBuiltins: seq<bytes>, fromEntries: seq<bytes>, bs: seq<nat>, es: seq<nat>)
    requires cursor <= |line|
    ensures var start := TokStart(line, cursor);
            var tok := line[start..cursor];
            && Candidates(line, cursor, ls) == fromBuiltins + fromEntries
            && (if forall k :: 0 <= k < start ==> line[k] in [9, 10, 13, 32]
                then PicksPrefixed(Builtins(), tok, 0, bs) else bs == [])
            && NamesAt(Builtins(), bs, fromBuiltins)
            && PicksPrefixed(Entries(ls, DirPart(tok)), NamePart(tok), 0, es)
            && NamesAt(Entries(ls, DirPart(tok)), es, fromEntries)
  {
    hide WithPrefix, Entries, DirLen, Builtins, BuiltinNames, PicksPrefixed;
    var start := TokStart(line, cursor);
    var tok := line[start..cursor];
    fromBuiltins, bs := [], [];
    if FirstWord(line, start) {
      fromBuiltins := WithPrefix(Builtins(), tok);
      bs := PrefixedInOrder(Builtins(), tok, 0);
      assert Builtins()[0..] == Builtins();
    }
    var entries := Entries(ls, DirPart(tok));
    fromEntries := WithPrefix(entries, NamePart(tok));
    es := PrefixedInOrder(entries, NamePart(tok), 0);
    assert entries[0..] == entries;
  }

  lemma {:induction false} PrefixedInOrder(names: seq<bytes>, prefix: bytes, j: nat) returns (ks: seq<nat>)
    requires j <= |names|
    ensures PicksPrefixed(names, prefix, j, ks) && NamesAt(names, ks, WithPrefix(names[j..], prefix))
    decreases |names| - j
  {
    hide Increasing, NamesAt, WithPrefix;
    if j == |names| {
      ks := [];
      NoneIncreasing();
      NoNames(names);
      assert names[j..] == [];
      NonePrefixed(prefix);
    } else {
      var rest := PrefixedInOrder(names, prefix, j + 1);
      assert names[j..] == [names[j]] + names[j + 1..];
      var more := WithPrefix(names[j + 1..], prefix);
      OnePrefixed(names[j], names[j + 1..], prefix);
      if prefix <= names[j] {
        ks := [j] + rest;
        ConsIncreasing(j, rest);
        FirstName(names, j, rest, more);
      } else {
        ks := rest;
      }
    }
  }

  lemma NonePrefixed(prefix: bytes)
    ensures WithPrefix([], prefix) == []
  {
  }

  lemma OnePrefixed(name: bytes, rest: seq<bytes>, prefix: bytes)
    ensures WithPrefix([name] + rest, prefix) ==
            if prefix <= name then [name] + WithPrefix(rest, prefix) else WithPrefix(rest, prefix)
  {
    DropHead([name], rest);
    Unit(WithPrefix(rest, prefix));
  }

  lemma NoNames(names: seq<bytes>)
    ensures NamesAt(names, [], [])
  {
  }

  lemma FirstName(names: seq<bytes>, j: nat, rest: seq<nat>, found: seq<bytes>)
    requires j < |names| && NamesAt(names, rest, found)
    ensures NamesAt(names, [j] + rest, [names[j]] + found)
  {
  }

  // What the candidates make of the line, the cursor and the output: nothing without one, the
  // name and a blank (32) for one, and a list between line feeds (10) for several.
  lemma CompletionByCount(line: bytes, cursor: nat, ls: Listing)
    requires cursor <= |line|
    ensures var start := TokStart(line, cursor);
            var cands := Candidates(line, cursor, ls);
            var r := Completed(line, cursor, ls);
            var out := Printed(line, cursor, ls);
            && (cands == [] ==> r == TabResult(Take(line, 256), cursor, false))
            && (|cands| == 1 ==>
                  r == TabResult(Take(line[..start] + cands[0] + [32] + line[cursor..], 256),
                                 start + |cands[0]| + 1, false))
            && (|cands| > 1 <==> r.printed)
            && (|cands| > 1 ==> out == [10] + Listed(cands) + [10])
            && (|cands| > 1 && !IsCommon(cands, cursor - start + 1) ==> r.line == Take(line, 256) && r.cursor == cursor)
            && (forall n: nat :: |cands| > 1 && n > cursor - start && IsCommon(cands, n) && !IsCommon(cands, n + 1) ==>
                  r.line == Take(line[..start] + cands[0][..n] + line[cursor..], 256) && r.cursor == start + n)
            && (|cands| < 2 ==> out == [])
  {
    hide TokStart, Candidates, CommonLen, Listed;
    var start := TokStart(line, cursor);
    var cands := Candidates(line, cursor, ls);
    WholeLine(line, start, cursor);
    if |cands| == 1 {
      Assoc(line[..start], cands[0], [32]);
    } else if |cands| > 1 {
      CommonIsLongest(cands, cursor - start + 1);
      forall n: nat | IsCommon(cands, n) && !IsCommon(cands, n + 1) ensures n == CommonLen(cands) {
        CommonIsLongest(cands, n);
        CommonIsLongest(cands, n + 1);
      }
    }
  }

  // The list: each candidate followed by two blanks.
  lemma {:induction false} ListedConcat(a: seq<bytes>, b: seq<bytes>)
    ensures Listed(a + b) == Listed(a) + Listed(b)
    ensures |a| == 1 ==> Listed(a) == a[0] + [32, 32]
  {
    if a == [] {
      Unit(b);
      Unit(Listed(b));
    } else {
      assert (a + b)[1..] == a[1..] + b;
      ListedConcat(a[1..], b);
      Assoc(a[0] + [SPACE, SPACE], Listed(a[1..]), Listed(b));
      Unit(a[0] + [SPACE, SPACE]);
    }
  }

  // With a '/' the token is kept exactly when nothing is inserted: a candidate is a bare
  // entry name, and its directory is lost.
  lemma CompletionDropsDirectory(line: bytes, cursor: nat, ls: Listing)
    requires cursor <= |line|
    requires forall dir, k :: 0 <= k < |Entries(ls, dir)| ==> SLASH !in Entries(ls, dir)[k]
    ensures var tok := line[TokStart(line, cursor)..cursor];
            var cands := Candidates(line, cursor, ls);
            tok <= Extension(tok, cands) <==>
            SLASH !in tok || cands == [] || (|cands| > 1 && CommonLen(cands) <= |tok|)
  {
    var tok := line[TokStart(line, cursor)..cursor];
    var cands := Candidates(line, cursor, ls);
    if SLASH !in tok {
      CompletionExtends(line, cursor, ls);
    } else if cands != [] && !(|cands| > 1 && CommonLen(cands) <= |tok|) {
      CandidatesSlashFree(line, cursor, ls);
      var ext := Extension(tok, cands);
      var i :| 0 <= i < |tok| && tok[i] == SLASH;
      assert forall k :: 0 <= k < |cands[0]| ==> cands[0][k] in cands[0];
      assert SLASH !in ext;
      assert forall k :: 0 <= k < |ext| ==> ext[k] != SLASH;
      assert i < |ext| ==> ext[i] != SLASH;
    }
  }

  lemma CandidatesSlashFree(line: bytes, cursor: nat, ls: Listing)
    requires cursor <= |line| && SLASH in line[TokStart(line, cursor)..cursor]
    requires forall dir, k :: 0 <= k < |Entries(ls, dir)| ==> SLASH !in Entries(ls, dir)[k]
    ensures forall k :: 0 <= k < |Candidates(line, cursor, ls)| ==> SLASH !in Candidates(line, cursor, ls)[k]
  {
    var tok := line[TokStart(line, cursor)..cursor];
    var i :| 0 <= i < |tok| && tok[i] == SLASH;
    var fromBuiltins := WithPrefix(Builtins(), tok);
    forall k | 0 <= k < |fromBuiltins| ensures SLASH !in fromBuiltins[k] {
      BuiltinsSlashFree(fromBuiltins[k]);
    }
  }

  lemma BuiltinsSlashFree(name: bytes)
    requires name in Builtins()
    ensures SLASH !in name
  {
    hide BuiltinNames, Builtins, Ascii;
    var k :| 0 <= k < |Builtins()| && Builtins()[k] == name;
    NamesAreLetters(k);
    LettersSlashFree(BuiltinNames()[k]);
  }

  lemma NamesAreLetters(k: nat)
    requires k < |BuiltinNames()|
    ensures forall c :: c in BuiltinNames()[k] ==> 'a' <= c <= 'z'
  {
  }

  lemma LettersSlashFree(s: string)
    requires forall c :: c in s ==> 'a' <= c <= 'z'
    ensures SLASH !in Ascii(s)
  {
    assert forall j :: 0 <= j < |s| ==> s[j] in s && Ascii(s)[j] == s[j] as int % 256;
  }
}
