// Path resolution (src/path.rs): relative paths become absolute, '.' and '..' are resolved
// lexically. The code pops and pushes components directly in the output byte buffer; the
// reference keeps a stack of components.
module Path {
  import opened Bytes

  const PATH_MAX: nat := 256

  // ----- Reference: components and their stack fold -----

  // End of the component that starts at i.
  function CompEnd(p: bytes, i: nat): (e: nat)
    requires i <= |p|
    ensures i <= e <= |p|
    ensures e < |p| ==> p[e] == SLASH
    ensures SLASH !in p[i..e]
    decreases |p| - i
  {
    if i == |p| || p[i] == SLASH then i
    else
      var e := CompEnd(p, i + 1);
      assert p[i..e] == [p[i]] + p[i + 1..e];
      e
  }

  // All components of p, empty ones included.
  function Split(p: bytes): seq<bytes>
    decreases |p|
  {
    var e := CompEnd(p, 0);
    [p[..e]] + if e == |p| then [] else Split(p[e + 1..])
  }

  // One component acts on the stack of names.
  function Act(stack: seq<bytes>, comp: bytes): seq<bytes> {
    if comp == [] || comp == [DOT] then stack
    else if comp == [DOT, DOT] then (if stack == [] then [] else stack[..|stack| - 1])
    else stack + [comp]
  }

  function Fold(stack: seq<bytes>, comps: seq<bytes>): seq<bytes>
    decreases |comps|
  {
    if comps == [] then stack else Fold(Act(stack, comps[0]), comps[1..])
  }

  // The names a path denotes, lexically.
  function Names(p: bytes): seq<bytes> {
    Fold([], Split(p))
  }

  // ----- The code's byte-level view of the stack -----

  // What the output buffer holds for a stack: below the root the path may or may not end
  // in '/', depending on whether the last component that had an effect was "..".
  function Spell(stack: seq<bytes>, slash: bool): bytes {
    if stack == [] then [SLASH]
    else Spell(stack[..|stack| - 1], true) + stack[|stack| - 1] + if slash then [SLASH] else []
  }

  predicate IsName(c: bytes) {
    c != [] && c != [DOT] && c != [DOT, DOT] && SLASH !in c
  }

  predicate AreNames(stack: seq<bytes>) {
    forall k :: 0 <= k < |stack| ==> IsName(stack[k])
  }

  // Drop trailing bytes until a '/' or the root is left.
  function StripToSlash(o: bytes): (r: bytes)
    requires |o| >= 1
    ensures 1 <= |r| <= |o| && r == o[..|r|]
    ensures |r| == 1 || r[|r| - 1] == SLASH
  {
    if |o| > 1 && o[|o| - 1] != SLASH then StripToSlash(o[..|o| - 1]) else o
  }

  // The loop's effect on the output for one component; None when the buffer is too small.
  function Append(o: bytes, comp: bytes): (r: Option<bytes>)
    requires |o| >= 1
    ensures r.Some? ==> |r.value| >= 1
  {
    if comp == [] || comp == [DOT] then Some(o)
    else if comp == [DOT, DOT] then
      Some(if |o| > 1 then StripToSlash(o[..|o| - 1]) else o)
    else
      var sep := if o[|o| - 1] != SLASH then [SLASH] else [];
      if sep != [] && |o| >= PATH_MAX - 1 then None
      else if |o + sep| + |comp| >= PATH_MAX then None
      else Some(o + sep + comp)
  }

  function AppendAll(o: bytes, comps: seq<bytes>): (r: Option<bytes>)
    requires |o| >= 1
    ensures r.Some? ==> |r.value| >= 1
    decreases |comps|
  {
    if comps == [] then Some(o)
    else
      var next := Append(o, comps[0]);
      if next.None? then None else AppendAll(next.value, comps[1..])
  }

  // normalize: None stands for the return value 0.
  function Normalized(p: bytes): (r: Option<bytes>) {
    if p == [] || p[0] != SLASH then None else AppendAll([SLASH], LoopComps(p, 1))
  }

  // The components the main loop visits from position i: none once the end is reached.
  function LoopComps(p: bytes, i: nat): seq<bytes>
    requires i <= |p|
    decreases |p| - i
  {
    if i == |p| then []
    else
      var e := CompEnd(p, i);
      [p[i..e]] + LoopComps(p, if e < |p| then e + 1 else e)
  }

  // ----- normalize, in place -----

  method ScanComp(path: bytes, start: nat) returns (i: nat)
    requires start <= |path|
    ensures i == CompEnd(path, start)
  {
    i := start;
    while i < |path| && path[i] != SLASH
      invariant start <= i <= |path|
      invariant CompEnd(path, start) == CompEnd(path, i)
    {
      i := i + 1;
    }
  }

  // Moves the end of the output back over its last component.
  method PopBack(out: array<byte>, len: nat) returns (olen: nat)
    requires 1 <= len <= out.Length
    ensures olen <= len
    ensures out[..olen] == if len > 1 then StripToSlash(out[..len - 1]) else out[..len]
  {
    olen := len;
    if olen > 1 {
      olen := olen - 1;
      while olen > 1 && out[olen - 1] != SLASH
        invariant 1 <= olen < len
        invariant StripToSlash(out[..olen]) == StripToSlash(out[..len - 1])
      {
        assert out[..olen][..olen - 1] == out[..olen - 1];
        olen := olen - 1;
      }
    }
  }

  // Copies src into the buffer at position at; what precedes it stays.
  method CopyAt(out: array<byte>, at: nat, src: bytes) returns (end: nat)
    requires at + |src| <= out.Length
    modifies out
    ensures end == at + |src| && out[..end] == old(out[..at]) + src
  {
    forall k | at <= k < at + |src| {
      out[k] := src[k - at];
    }
    end := at + |src|;
    assert out[..at] == old(out[..at]);
    assert out[at..end] == src;
    assert out[..end] == out[..at] + out[at..end];
  }

  // Appends a name, with a separator unless the output already ends in one.
  method PushComp(out: array<byte>, len: nat, comp: bytes) returns (ok: bool, olen: nat)
    requires out.Length == PATH_MAX && 1 <= len < PATH_MAX
    requires comp != [] && comp != [DOT] && comp != [DOT, DOT]
    modifies out
    ensures ok <==> Append(old(out[..len]), comp).Some?
    ensures ok ==> len <= olen < PATH_MAX && Append(old(out[..len]), comp) == Some(out[..olen])
  {
    olen := len;
    if out[olen - 1] != SLASH {
      if olen >= PATH_MAX - 1 {
        return false, olen;
      }
      out[olen] := SLASH;
      olen := olen + 1;
    }
    assert out[..olen] == old(out[..len]) + if olen == len then [] else [SLASH];
    if olen + |comp| >= PATH_MAX {
      return false, olen;
    }
    olen := CopyAt(out, olen, comp);
    ok := true;
  }

  // len == 0 is the error return; otherwise out[..len] is the result, NUL-terminated.
  method Normalize(path: bytes, out: array<byte>) returns (len: nat)
    requires out.Length == PATH_MAX
    modifies out
    ensures len == 0 <==> Normalized(path) == None
    ensures len > 0 ==> len < PATH_MAX && Normalized(path) == Some(out[..len]) && out[len] == NUL
  {
    hide CompEnd, StripToSlash, AppendAll, LoopComps;
    if path == [] || path[0] != SLASH {
      return 0;
    }
    var olen: nat := 1;
    out[0] := SLASH;
    assert out[..1] == [SLASH];
    var i: nat := 1;
    while i < |path|
      invariant 1 <= i <= |path|
      invariant 1 <= olen < PATH_MAX
      invariant AppendAll(out[..olen], LoopComps(path, i)) == Normalized(path)
    {
      var start := i;
      i := ScanComp(path, start);
      var comp := path[start..i];
      LoopStep(out[..olen], path, start);
      if comp == [] || comp == [DOT] {
      } else if comp == [DOT, DOT] {
        assert olen > 1 ==> out[..olen][..olen - 1] == out[..olen - 1];
        olen := PopBack(out, olen);
      } else {
        var ok, pushed := PushComp(out, olen, comp);
        if !ok {
          return 0;
        }
        olen := pushed;
      }
      if i < |path| && path[i] == SLASH {
        i := i + 1;
      }
    }
    AppendNone(out[..olen], path);
    out[olen] := NUL;
    len := olen;
  }

  lemma LoopStep(o: bytes, path: bytes, i: nat)
    requires 1 <= |o| && i < |path|
    ensures var e := CompEnd(path, i);
            var step := Append(o, path[i..e]);
            AppendAll(o, LoopComps(path, i)) ==
            if step.None? then None else AppendAll(step.value, LoopComps(path, if e < |path| then e + 1 else e))
  {
    var e := CompEnd(path, i);
    var rest := LoopComps(path, if e < |path| then e + 1 else e);
    assert LoopComps(path, i)[0] == path[i..e] && LoopComps(path, i)[1..] == rest;
  }

  lemma AppendNone(o: bytes, path: bytes)
    requires 1 <= |o|
    ensures AppendAll(o, LoopComps(path, |path|)) == Some(o)
  {
  }

  // ----- The byte buffer refines the stack -----

  lemma {:induction false} FoldConcat(stack: seq<bytes>, a: seq<bytes>, b: seq<bytes>)
    ensures Fold(stack, a + b) == Fold(Fold(stack, a), b)
    decreases |a|
  {
    if a == [] {
      assert a + b == b;
    } else {
      FoldConcat(Act(stack, a[0]), a[1..], b);
      assert (a + b)[1..] == a[1..] + b;
    }
  }

  lemma FoldNoop(stack: seq<bytes>, c: bytes)
    requires c == [] || c == [DOT]
    ensures Fold(stack, [c]) == stack
  {
    assert Fold(stack, [c]) == Fold(Act(stack, c), []);
  }

  lemma {:induction false} CompEndShift(p: bytes, i: nat)
    requires i <= |p|
    ensures CompEnd(p[i..], 0) + i == CompEnd(p, i)
  {
    CompEndShiftFrom(p, i, 0);
  }

  lemma {:induction false} CompEndShiftFrom(p: bytes, i: nat, k: nat)
    requires i + k <= |p|
    ensures CompEnd(p[i..], k) + i == CompEnd(p, i + k)
    decreases |p| - k
  {
    if i + k < |p| && p[i + k] != SLASH {
      CompEndShiftFrom(p, i, k + 1);
    }
  }

  lemma CompEndPrefix(a: bytes, b: bytes)
    ensures CompEnd(a + [SLASH] + b, 0) == CompEnd(a, 0)
  {
    CompEndPrefixFrom(a, b, 0);
  }

  lemma {:induction false} CompEndPrefixFrom(a: bytes, b: bytes, k: nat)
    requires k <= |a|
    ensures CompEnd(a + [SLASH] + b, k) == CompEnd(a, k)
    decreases |a| - k
  {
    if k < |a| && a[k] != SLASH {
      CompEndPrefixFrom(a, b, k + 1);
    }
  }

  // Splitting is compositional at every '/'.
  lemma {:induction false} SplitJoin(a: bytes, b: bytes)
    ensures Split(a + [SLASH] + b) == Split(a) + Split(b)
    decreases |a|
  {
    hide CompEnd;
    var p := a + [SLASH] + b;
    var e := CompEnd(a, 0);
    CompEndPrefix(a, b);
    assert p[..e] == a[..e];
    if e == |a| {
      DropHead(a + [SLASH], b);
    } else {
      assert p[e + 1..] == a[e + 1..] + [SLASH] + b;
      SplitJoin(a[e + 1..], b);
      Assoc([a[..e]], Split(a[e + 1..]), Split(b));
    }
  }

  // The components of a path without '/'.
  lemma SplitOne(c: bytes)
    requires SLASH !in c
    ensures Split(c) == [c]
  {
    var e := CompEnd(c, 0);
    assert c[..|c|] == c;
  }

  // The last component of the list that is neither empty nor ".".
  function LastEffective(comps: seq<bytes>): Option<bytes> {
    if comps == [] then None
    else
      var c := comps[|comps| - 1];
      if c == [] || c == [DOT] then LastEffective(comps[..|comps| - 1]) else Some(c)
  }

  // Whether the buffer ends in '/' below the root, after the components.
  function SlashAfter(slash: bool, comps: seq<bytes>): bool {
    var last := LastEffective(comps);
    if last.None? then slash else last == Some([DOT, DOT])
  }

  lemma {:induction false} LastEffectiveCons(c: bytes, comps: seq<bytes>)
    ensures LastEffective([c] + comps) ==
            if LastEffective(comps).Some? then LastEffective(comps)
            else if c == [] || c == [DOT] then None else Some(c)
    decreases |comps|
  {
    var all := [c] + comps;
    if comps == [] {
      assert all[..0] == [];
    } else {
      assert all[..|all| - 1] == [c] + comps[..|comps| - 1];
      LastEffectiveCons(c, comps[..|comps| - 1]);
    }
  }

  lemma SpellShape(stack: seq<bytes>, slash: bool)
    requires AreNames(stack)
    ensures |Spell(stack, slash)| >= 1 && Spell(stack, slash)[0] == SLASH
    ensures stack == [] <==> |Spell(stack, slash)| == 1
    ensures (stack == [] || slash) <==> Spell(stack, slash)[|Spell(stack, slash)| - 1] == SLASH
    decreases |stack|
  {
    if stack != [] {
      SpellShape(stack[..|stack| - 1], true);
      assert IsName(stack[|stack| - 1]);
    }
  }

  lemma {:induction false} StripName(o: bytes, c: bytes)
    requires |o| >= 1 && o[|o| - 1] == SLASH && SLASH !in c
    ensures StripToSlash(o + c) == o
    decreases |c|
  {
    if c == [] {
      assert o + c == o;
    } else {
      assert c[|c| - 1] in c;
      assert (o + c)[..|o + c| - 1] == o + c[..|c| - 1];
      StripName(o, c[..|c| - 1]);
    }
  }

  // One component: the byte-level pop and push spell the stack-level pop and push.
  ghost predicate Spelled(stack: seq<bytes>, slash: bool, comp: bytes) {
    |Spell(stack, slash)| >= 1 && AreNames(Act(stack, comp)) &&
    var r := Append(Spell(stack, slash), comp);
    r.Some? ==> r.value == Spell(Act(stack, comp), SlashAfter(slash, [comp]))
  }

  lemma AppendSpells(stack: seq<bytes>, slash: bool, comp: bytes)
    requires AreNames(stack) && SLASH !in comp
    ensures Spelled(stack, slash, comp)
  {
    hide Spelled, AreNames;
    if comp == [] || comp == [DOT] {
      SkipIsSpelled(stack, slash, comp);
    } else if comp == [DOT, DOT] {
      PopIsSpelled(stack, slash);
    } else {
      PushIsSpelled(stack, slash, comp);
    }
  }

  lemma SkipIsSpelled(stack: seq<bytes>, slash: bool, comp: bytes)
    requires AreNames(stack) && (comp == [] || comp == [DOT])
    ensures Spelled(stack, slash, comp)
  {
    hide Spell, LastEffective, IsName;
    LastOfOne(comp);
    SpellShape(stack, slash);
  }

  lemma PopIsSpelled(stack: seq<bytes>, slash: bool)
    requires AreNames(stack)
    ensures Spelled(stack, slash, [DOT, DOT])
  {
    hide StripToSlash, Spell, LastEffective, IsName;
    LastOfOne([DOT, DOT]);
    SpellShape(stack, slash);
    if stack == [] {
      SpellRoot(slash);
      SpellRoot(true);
    } else {
      PopSpells(stack, slash);
    }
  }

  lemma PushIsSpelled(stack: seq<bytes>, slash: bool, comp: bytes)
    requires AreNames(stack) && SLASH !in comp && comp != [] && comp != [DOT] && comp != [DOT, DOT]
    ensures Spelled(stack, slash, comp)
  {
    hide StripToSlash, Spell, LastEffective, IsName;
    LastOfOne(comp);
    SpellShape(stack, slash);
    PushSpells(stack, slash, comp);
    PlainIsName(comp);
  }

  lemma PlainIsName(c: bytes)
    requires c != [] && c != [DOT] && c != [DOT, DOT] && SLASH !in c
    ensures IsName(c)
  {
  }

  lemma LastOfOne(c: bytes)
    ensures LastEffective([c]) == if c == [] || c == [DOT] then None else Some(c)
  {
    LastEffectiveCons(c, []);
    assert [c] + [] == [c];
  }

  lemma SpellRoot(slash: bool)
    ensures Spell([], slash) == [SLASH]
  {
  }

  lemma SpellTop(stack: seq<bytes>, slash: bool)
    requires stack != []
    ensures Spell(stack, slash) ==
            Spell(stack[..|stack| - 1], true) + stack[|stack| - 1] + if slash then [SLASH] else []
  {
  }

  lemma PopSpells(stack: seq<bytes>, slash: bool)
    requires AreNames(stack) && stack != []
    ensures |Spell(stack, slash)| > 1
    ensures StripToSlash(Spell(stack, slash)[..|Spell(stack, slash)| - 1]) == Spell(stack[..|stack| - 1], true)
  {
    hide StripToSlash, Spell;
    var below := Spell(stack[..|stack| - 1], true);
    var name := stack[|stack| - 1];
    SpellShape(stack, slash);
    SpellTop(stack, slash);
    SpellShape(stack[..|stack| - 1], true);
    assert IsName(name);
    var o := Spell(stack, slash);
    if slash {
      assert o[..|o| - 1] == below + name;
      StripName(below, name);
    } else {
      assert o[..|o| - 1] == below + name[..|name| - 1];
      StripName(below, name[..|name| - 1]);
    }
  }

  lemma PushSpells(stack: seq<bytes>, slash: bool, comp: bytes)
    requires AreNames(stack)
    ensures |Spell(stack, slash)| >= 1
    ensures var o := Spell(stack, slash);
            o + (if o[|o| - 1] != SLASH then [SLASH] else []) + comp == Spell(stack + [comp], false)
  {
    hide Spell;
    SpellShape(stack, slash);
    SpellRoot(true);
    SpellRoot(slash);
    DropHead(stack, [comp]);
    SpellTop(stack + [comp], false);
    Unit(Spell(stack, true) + comp);
    Unit(Spell(stack, slash));
    if stack != [] && !slash {
      SpellOpenAt(stack);
    }
  }

  lemma {:induction false} AppendAllSpells(stack: seq<bytes>, slash: bool, comps: seq<bytes>)
    requires AreNames(stack) && SlashFree(comps)
    ensures |Spell(stack, slash)| >= 1
    ensures AreNames(Fold(stack, comps))
    ensures var r := AppendAll(Spell(stack, slash), comps);
            r.Some? ==> r.value == Spell(Fold(stack, comps), SlashAfter(slash, comps))
    decreases |comps|
  {
    SpellShape(stack, slash);
    if comps != [] {
      AppendSpells(stack, slash, comps[0]);
      AppendAllSpells(Act(stack, comps[0]), SlashAfter(slash, [comps[0]]), comps[1..]);
      assert comps == [comps[0]] + comps[1..];
      LastEffectiveCons(comps[0], comps[1..]);
      LastOfOne(comps[0]);
    }
  }

  lemma SplitUnfolds(p: bytes, i: nat)
    requires i <= |p|
    ensures var e := CompEnd(p, i);
            Split(p[i..]) == [p[i..e]] + if e < |p| then Split(p[e + 1..]) else []
  {
    hide CompEnd;
    var e := CompEnd(p, i);
    CompEndShift(p, i);
    assert p[i..][..e - i] == p[i..e];
    assert e < |p| ==> p[i..][e - i + 1..] == p[e + 1..];
    SplitAt(p[i..], e - i);
  }

  lemma SplitAt(p: bytes, e: nat)
    requires CompEnd(p, 0) == e
    ensures Split(p) == [p[..e]] + if e == |p| then [] else Split(p[e + 1..])
  {
  }

  // The loop sees the components of the path, but for a final empty one.
  lemma {:induction false} LoopSplits(p: bytes, i: nat)
    requires i <= |p|
    ensures Split(p[i..]) == LoopComps(p, i) || Split(p[i..]) == LoopComps(p, i) + [[]]
    decreases |p| - i
  {
    hide CompEnd, Split;
    var e := CompEnd(p, i);
    SplitUnfolds(p, i);
    if e < |p| {
      LoopSplits(p, e + 1);
      assert [p[i..e]] + (LoopComps(p, e + 1) + [[]]) == [p[i..e]] + LoopComps(p, e + 1) + [[]];
    } else {
      assert LoopComps(p, e) == [];
      assert p[i..e] == p[i..];
    }
  }

  ghost predicate SlashFree(comps: seq<bytes>) {
    forall k :: 0 <= k < |comps| ==> SLASH !in comps[k]
  }

  lemma {:induction false} LoopSlashFree(p: bytes, i: nat)
    requires i <= |p|
    ensures SlashFree(LoopComps(p, i))
    decreases |p| - i
  {
    if i < |p| {
      var e := CompEnd(p, i);
      LoopSlashFree(p, if e < |p| then e + 1 else e);
    }
  }

  lemma LoopFold(p: bytes)
    requires p != [] && p[0] == SLASH
    ensures Fold([], LoopComps(p, 1)) == Names(p)
    ensures LastEffective(LoopComps(p, 1)) == LastEffective(Split(p))
  {
    var comps := LoopComps(p, 1);
    LoopSplits(p, 1);
    assert p == [] + [SLASH] + p[1..];
    SplitJoin([], p[1..]);
    SplitOne([]);
    LastEffectiveCons([], Split(p[1..]));
    assert Split(p)[1..] == Split(p[1..]);
    assert Act([], []) == [];
    if Split(p[1..]) == comps + [[]] {
      FoldConcat([], comps, [[]]);
      assert (comps + [[]])[..|comps|] == comps;
    }
  }

  // Main result: whenever normalize succeeds, its output spells the stack fold of the
  // components, with a '/' at the end below the root exactly when the last component that
  // was neither empty nor "." was "..".
  lemma NormalizeFolds(p: bytes)
    requires Normalized(p).Some?
    ensures AreNames(Names(p))
    ensures Normalized(p).value == Spell(Names(p), LastEffective(Split(p)) == Some([DOT, DOT]))
    ensures Names(Normalized(p).value) == Names(p)
  {
    LoopSlashFree(p, 1);
    AppendAllSpells([], false, LoopComps(p, 1));
    LoopFold(p);
    NamesSpell(Names(p), LastEffective(Split(p)) == Some([DOT, DOT]));
  }

  // A spelled stack denotes itself.
  lemma {:induction false} NamesSpell(stack: seq<bytes>, slash: bool)
    requires AreNames(stack)
    ensures Names(Spell(stack, slash)) == stack
    ensures LastEffective(Split(Spell(stack, slash))) != Some([DOT, DOT])
    decreases |stack|, slash
  {
    hide Split, IsName, Spell, LastEffective, Names;
    if stack == [] {
      SpellRoot(slash);
      assert [SLASH] == [] + [SLASH] + [];
      NamesOpen([], []);
      RootNames();
    } else if slash {
      NamesSpell(stack, false);
      SpellOpen(stack);
      assert Spell(stack, true) == Spell(stack, false) + [SLASH] + [];
      NamesOpen(Spell(stack, false), []);
    } else {
      var c := stack[|stack| - 1];
      var below := stack[..|stack| - 1];
      var o := if below == [] then [] else Spell(below, false);
      SpellOpen(stack);
      NamesSpell(below, false);
      RootNames();
      NameIsPlain(c);
      NamesOpen(o, c);
      assert stack == below + [c];
    }
  }

  lemma SpellOpen(stack: seq<bytes>)
    requires stack != []
    ensures Spell(stack, true) == Spell(stack, false) + [SLASH]
    ensures var below := stack[..|stack| - 1];
            Spell(stack, false) == (if below == [] then [] else Spell(below, false)) + [SLASH] + stack[|stack| - 1]
  {
    var below := stack[..|stack| - 1];
    if below != [] {
      SpellOpenAt(below);
    }
    SpellOpenAt(stack);
  }

  lemma SpellOpenAt(stack: seq<bytes>)
    requires stack != []
    ensures Spell(stack, true) == Spell(stack, false) + [SLASH]
  {
    assert Spell(stack, false) + [] == Spell(stack, false);
  }

  lemma NameIsPlain(c: bytes)
    requires IsName(c)
    ensures c != [] && c != [DOT] && c != [DOT, DOT] && SLASH !in c
  {
  }

  lemma RootNames()
    ensures Names([]) == [] && LastEffective(Split([])) == None
  {
    SplitOne([]);
    FoldNoop([], []);
    LastOfOne([]);
  }

  // One more component at the end of a path.
  lemma NamesOpen(o: bytes, c: bytes)
    requires c == [] || IsName(c)
    ensures Names(o + [SLASH] + c) == if c == [] then Names(o) else Names(o) + [c]
    ensures LastEffective(Split(o + [SLASH] + c)) == if c == [] then LastEffective(Split(o)) else Some(c)
  {
    hide Split;
    SplitJoin(o, c);
    SplitOne(c);
    FoldConcat([], Split(o), [c]);
    assert Fold(Names(o), [c]) == Fold(Act(Names(o), c), []);
    assert (Split(o) + [c])[..|Split(o)|] == Split(o);
  }

  // ----- When normalize fails -----

  // One component never makes the output longer than the input read so far.
  lemma StepFits(o: bytes, p: bytes, i: nat)
    requires 1 <= |o| <= i < |p| < PATH_MAX && o[0] == SLASH
    requires |o| < i || o[|o| - 1] == SLASH
    ensures var e := CompEnd(p, i);
            var i' := if e < |p| then e + 1 else e;
            var r := Append(o, p[i..e]);
            && r.Some? && 1 <= |r.value| <= i' && r.value[0] == SLASH
            && (i' == |p| || |r.value| < i' || r.value[|r.value| - 1] == SLASH)
  {
    var comp := p[i..CompEnd(p, i)];
    if comp == [DOT, DOT] && |o| > 1 {
      var r := StripToSlash(o[..|o| - 1]);
      assert r[0] == o[0];
    }
  }

  lemma {:induction false} LoopFits(o: bytes, p: bytes, i: nat)
    requires 1 <= |o| <= i <= |p| < PATH_MAX && o[0] == SLASH
    requires i == |p| || |o| < i || o[|o| - 1] == SLASH
    ensures AppendAll(o, LoopComps(p, i)).Some?
    ensures |AppendAll(o, LoopComps(p, i)).value| <= |p|
    decreases |p| - i
  {
    hide CompEnd, Append;
    if i < |p| {
      var e := CompEnd(p, i);
      var i' := if e < |p| then e + 1 else e;
      StepFits(o, p, i);
      LoopFits(Append(o, p[i..e]).value, p, i');
      LoopStep(o, p, i);
    }
  }

  lemma NormalizeSucceeds(p: bytes)
    requires p != [] && p[0] == SLASH && |p| < PATH_MAX
    ensures Normalized(p).Some? && |Normalized(p).value| <= |p|
  {
    LoopFits([SLASH], p, 1);
  }

  lemma {:induction false} AppendAllShort(o: bytes, comps: seq<bytes>)
    requires 1 <= |o| < PATH_MAX && AppendAll(o, comps).Some?
    ensures |AppendAll(o, comps).value| < PATH_MAX
    decreases |comps|
  {
    if comps != [] {
      AppendAllShort(Append(o, comps[0]).value, comps[1..]);
    }
  }

  // ----- Repeated normalization -----

  // A second application drops the '/' that a final ".." leaves; a third changes nothing.
  lemma NormalizeAgain(p: bytes)
    requires Normalized(p).Some?
    ensures Normalized(Normalized(p).value) == Some(Spell(Names(p), false))
    ensures Normalized(Spell(Names(p), false)) == Some(Spell(Names(p), false))
  {
    var q := Normalized(p).value;
    var r := Spell(Names(p), false);
    AppendAllShort([SLASH], LoopComps(p, 1));
    NormalizeFolds(p);
    SpellShape(Names(p), false);
    SpellShape(Names(p), true);
    assert Names(p) != [] ==> Spell(Names(p), true) == r + [SLASH];
    NormalizeSucceeds(q);
    NormalizeSucceeds(r);
    NamesSpell(Names(p), LastEffective(Split(p)) == Some([DOT, DOT]));
    NamesSpell(Names(p), false);
    NormalizeFolds(q);
    NormalizeFolds(r);
  }

  // Exactly when one application already gives the final form.
  lemma NormalizeIdempotent(p: bytes)
    requires Normalized(p).Some?
    ensures Normalized(Normalized(p).value) == Normalized(p) <==>
            Names(p) == [] || LastEffective(Split(p)) != Some([DOT, DOT])
  {
    NormalizeAgain(p);
    NormalizeFolds(p);
    SpellShape(Names(p), false);
    SpellShape(Names(p), true);
  }

  // ----- resolve -----

  function StripDotSlash(input: bytes): bytes {
    if |input| >= 2 && input[0] == DOT && input[1] == SLASH then input[2..] else input
  }

  // The directory, a separator unless it ends in one, and the input; None when too long.
  function Joined(cwd: bytes, input: bytes): Option<bytes>
    requires cwd != []
  {
    var sep := if cwd[|cwd| - 1] != SLASH then [SLASH] else [];
    if |cwd| > PATH_MAX - 2 || |cwd + sep| + |input| >= PATH_MAX then None
    else Some(cwd + sep + input)
  }

  // cwd is what getcwd gave, None when it failed.
  function Resolved(input: bytes, cwd: Option<bytes>): Option<bytes>
    requires cwd.Some? ==> cwd.value != []
  {
    if input == [] then None
    else if input[0] == SLASH then Normalized(input)
    else if cwd.None? || cwd.value[0] != SLASH then Some([SLASH])
    else
      var joined := Joined(cwd.value, StripDotSlash(input));
      if joined.None? then None else Normalized(joined.value)
  }

  method CopyAbs(path: bytes, out: array<byte>) returns (len: nat)
    requires out.Length == PATH_MAX
    modifies out
    ensures len == if |path| >= PATH_MAX then 0 else |path|
    ensures |path| < PATH_MAX ==> out[..len] == path && out[len] == NUL
  {
    if |path| >= PATH_MAX {
      return 0;
    }
    len := CopyAt(out, 0, path);
    out[len] := NUL;
  }

  // Fills the buffer with the directory, a separator and the input; ok is false if it is too
  // small. (Once the directory is at most 254 bytes the separator always fits.)
  method JoinInto(cwd: bytes, input: bytes, joined: array<byte>) returns (ok: bool, jlen: nat)
    requires cwd != [] && joined.Length == PATH_MAX
    modifies joined
    ensures ok <==> Joined(cwd, input).Some?
    ensures ok ==> jlen <= PATH_MAX && Joined(cwd, input) == Some(joined[..jlen])
  {
    if |cwd| > PATH_MAX - 2 {
      return false, 0;
    }
    jlen := CopyAt(joined, 0, cwd);
    assert joined[..jlen] == cwd;
    if joined[jlen - 1] != SLASH {
      joined[jlen] := SLASH;
      jlen := jlen + 1;
    }
    assert joined[..jlen] == cwd + if jlen == |cwd| then [] else [SLASH];
    if jlen + |input| >= PATH_MAX {
      return false, 0;
    }
    jlen := CopyAt(joined, jlen, input);
    ok := true;
  }

  // cwdRet and cwd are what the getcwd system call returned and left in its 256-byte buffer.
  method Resolve(input: bytes, out: array<byte>, cwdRet: int, cwd: bytes) returns (len: nat)
    requires out.Length == PATH_MAX && |cwd| == PATH_MAX && cwdRet <= PATH_MAX
    modifies out
    ensures var dir := if cwdRet <= 0 then None else Some(cwd[..cwdRet]);
            && (len == 0 <==> Resolved(input, dir) == None)
            && (len > 0 ==> len < PATH_MAX && Resolved(input, dir) == Some(out[..len]) && out[len] == NUL)
  {
    hide Normalized, Joined;
    if input == [] {
      return 0;
    }
    if input[0] == SLASH {
      len := Normalize(input, out);
      return;
    }
    if cwdRet <= 0 {
      len := CopyAbs([SLASH], out);
      return;
    }
    if cwd[0] != SLASH {
      len := CopyAbs([SLASH], out);
      return;
    }
    var rest := if |input| >= 2 && input[0] == DOT && input[1] == SLASH then input[2..] else input;
    var joined := new byte[PATH_MAX](_ => 0);
    var ok, jlen := JoinInto(cwd[..cwdRet], rest, joined);
    if !ok {
      return 0;
    }
    len := Normalize(joined[..jlen], out);
  }

  // A directory without its final '/'.
  function Bare(cwd: bytes): bytes
    requires cwd != []
  {
    if cwd[|cwd| - 1] == SLASH then cwd[..|cwd| - 1] else cwd
  }

  lemma BareNames(cwd: bytes)
    requires cwd != []
    ensures Names(Bare(cwd)) == Names(cwd)
  {
    hide Split, Fold;
    var dir := Bare(cwd);
    if dir != cwd {
      assert cwd == dir + [SLASH] + [];
      SplitJoin(dir, []);
      SplitOne([]);
      FoldConcat([], Split(dir), [[]]);
      FoldNoop(Names(dir), []);
    }
  }

  lemma StripKeepsFold(stack: seq<bytes>, input: bytes)
    ensures Fold(stack, Split(StripDotSlash(input))) == Fold(stack, Split(input))
  {
    hide Split, Fold;
    var rest := StripDotSlash(input);
    if rest != input {
      assert input == [DOT] + [SLASH] + rest;
      SplitJoin([DOT], rest);
      SplitOne([DOT]);
      FoldConcat(stack, [[DOT]], Split(rest));
      FoldNoop(stack, [DOT]);
    }
  }

  // Components of a directory joined with a relative input: neither the separator rule nor
  // the "./" strip shows.
  lemma JoinNames(cwd: bytes, input: bytes)
    requires cwd != [] && cwd[0] == SLASH && Joined(cwd, StripDotSlash(input)).Some?
    ensures Names(Joined(cwd, StripDotSlash(input)).value) == Fold(Names(cwd), Split(input))
  {
    hide Split, Fold, StripDotSlash;
    var rest := StripDotSlash(input);
    assert Joined(cwd, rest).value == Bare(cwd) + [SLASH] + rest;
    SplitJoin(Bare(cwd), rest);
    FoldConcat([], Split(Bare(cwd)), Split(rest));
    BareNames(cwd);
    StripKeepsFold(Names(cwd), input);
  }

  // What a successful resolve denotes.
  lemma ResolveNames(input: bytes, cwd: bytes)
    requires cwd != [] && cwd[0] == SLASH && Resolved(input, Some(cwd)).Some?
    ensures Names(Resolved(input, Some(cwd)).value) ==
            if input[0] == SLASH then Names(input) else Fold(Names(cwd), Split(input))
    ensures Resolved(input, Some(cwd)).value != [] && Resolved(input, Some(cwd)).value[0] == SLASH
  {
    var path := if input[0] == SLASH then input else Joined(cwd, StripDotSlash(input)).value;
    NormalizeFolds(path);
    SpellShape(Names(path), LastEffective(Split(path)) == Some([DOT, DOT]));
    if input[0] != SLASH {
      JoinNames(cwd, input);
    }
  }

  // ----- Every result, spelled out -----

  // Did ".." have the last word?
  predicate EndsInDots(p: bytes) {
    LastEffective(Split(p)) == Some([DOT, DOT])
  }

  // The names of a path and its last word, one component at a time: 47 is '/', 46 is '.'.
  lemma PathSteps(p: bytes, c: bytes)
    requires 47 !in c
    ensures Names([]) == [] && !EndsInDots([])
    ensures var was, now := Names(p), Names(p + [47] + c);
            now == if c == [] || c == [46] then was
                   else if c == [46, 46] then (if was == [] then [] else was[..|was| - 1])
                   else was + [c]
    ensures EndsInDots(p + [47] + c) <==> c == [46, 46] || ((c == [] || c == [46]) && EndsInDots(p))
  {
    hide Split;
    RootNames();
    SplitJoin(p, c);
    SplitOne(c);
    FoldConcat([], Split(p), [c]);
    assert Fold(Names(p), [c]) == Fold(Act(Names(p), c), []);
    LastEffectiveConcat(Split(p), [c]);
    LastOfOne(c);
  }

  // How names are spelled: each behind a '/', and the root as '/'.
  lemma SpellSteps(stack: seq<bytes>, c: bytes)
    ensures Spell([], false) == [47] && Spell([], true) == [47]
    ensures Spell(stack + [c], true) == Spell(stack + [c], false) + [47]
    ensures Spell(stack + [c], false) == (if stack == [] then [] else Spell(stack, false)) + [47] + c
  {
    DropHead(stack, [c]);
    SpellOpen(stack + [c]);
  }

  lemma {:induction false} LastEffectiveConcat(a: seq<bytes>, b: seq<bytes>)
    ensures LastEffective(a + b) == if LastEffective(b).Some? then LastEffective(b) else LastEffective(a)
    decreases |b|
  {
    if b == [] {
      Unit(a);
    } else {
      assert (a + b)[..|a + b| - 1] == a + b[..|b| - 1];
      LastEffectiveConcat(a, b[..|b| - 1]);
    }
  }

  // The path that is resolved: the input, behind the directory unless it is absolute.
  function Whole(input: bytes, cwd: bytes): bytes
    requires input != []
  {
    if input[0] == 47 then input else cwd + [47] + input
  }

  lemma JoinEnds(cwd: bytes, input: bytes)
    requires cwd != [] && cwd[0] == SLASH && Joined(cwd, StripDotSlash(input)).Some?
    ensures var joined := Joined(cwd, StripDotSlash(input)).value;
            && Names(joined) == Names(cwd + [47] + input)
            && (EndsInDots(joined) <==> EndsInDots(cwd + [47] + input))
  {
    hide Split, Fold, LastEffective;
    var rest, dir := StripDotSlash(input), Bare(cwd);
    JoinNames(cwd, input);
    SplitJoin(cwd, input);
    FoldConcat([], Split(cwd), Split(input));
    assert Joined(cwd, rest).value == dir + [SLASH] + rest;
    SplitJoin(dir, rest);
    LastEffectiveConcat(Split(dir), Split(rest));
    LastEffectiveConcat(Split(cwd), Split(input));
    LastOfOne([]);
    LastOfOne([DOT]);
    SplitOne([]);
    SplitOne([DOT]);
    if dir != cwd {
      assert cwd == dir + [SLASH] + [];
      SplitJoin(dir, []);
      LastEffectiveConcat(Split(dir), [[]]);
    }
    if rest != input {
      assert input == [DOT] + [SLASH] + rest;
      SplitJoin([DOT], rest);
      LastEffectiveConcat([[DOT]], Split(rest));
    }
  }

  // Main result: every result is the spelling of the names of the path, with a '/' at the end
  // below the root exactly when ".." had the last word; and when there is one. Without a
  // directory to start from, a relative input gives the root.
  lemma ResolveSpells(input: bytes, cwd: Option<bytes>)
    requires cwd.Some? ==> cwd.value != []
    ensures var r := Resolved(input, cwd);
            var lost := cwd.None? || cwd.value[0] != 47;
            && (r.Some? ==> AreNames(Names(r.value)) && |r.value| < 256)
            && (input == [] ==> r == None)
            && (input != [] && input[0] != 47 && lost ==> r == Some([47]))
            && (r.Some? && (input[0] == 47 || !lost) ==>
                  var whole := Whole(input, if lost then [] else cwd.value);
                  AreNames(Names(whole)) && r.value == Spell(Names(whole), EndsInDots(whole)))
            && (input != [] && input[0] == 47 && |input| < 256 ==> r.Some?)
            && (input != [] && input[0] != 47 && !lost ==>
                  (r.Some? <==> |cwd.value| <= 254 && |Bare(cwd.value)| + 1 + |StripDotSlash(input)| < 256))
  {
    hide Split, Fold, LastEffective, Spell, AppendAll, LoopComps, CompEnd, IsName;
    var r := Resolved(input, cwd);
    if input != [] {
      if input[0] == 47 {
        if |input| < 256 {
          NormalizeSucceeds(input);
        }
        if r.Some? {
          AppendAllShort([SLASH], LoopComps(input, 1));
          NormalizeFolds(input);
        }
      } else if cwd.None? || cwd.value[0] != 47 {
        RootNames();
        PathSteps([], []);
        assert [] + [47] + [] == [47];
      } else {
        ResolveSucceeds(input, cwd.value);
        if r.Some? {
          var joined := Joined(cwd.value, StripDotSlash(input)).value;
          AppendAllShort([SLASH], LoopComps(joined, 1));
          NormalizeFolds(joined);
          JoinEnds(cwd.value, input);
        }
      }
    }
  }

  // An absolute input of any length: the step that a further component makes, and the only
  // way to fail, a name that does not fit.
  lemma NormalizedStep(p: bytes, c: bytes)
    requires (p == [] || p[0] == SLASH) && SLASH !in c
    ensures var was := if p == [] then Some([SLASH]) else Normalized(p);
            && (was.Some? ==> |was.value| >= 1)
            && Normalized(p + [SLASH] + c) == if was.None? then None else Append(was.value, c)
  {
    hide Split, Append, LoopComps, CompEnd;
    var q := p + [SLASH] + c;
    SplitJoin(p, c);
    SplitOne(c);
    NormalizedSplit(q);
    AppendAllConcat([SLASH], Split(p), [c]);
    if p == [] {
      SplitOne([]);
      SkipsEmpty([SLASH]);
    } else {
      NormalizedSplit(p);
    }
  }

  lemma SkipsEmpty(o: bytes)
    requires |o| >= 1
    ensures Append(o, []) == Some(o) && AppendAll(o, [[]]) == Some(o)
  {
    var one: seq<bytes> := [[]];
    assert one[1..] == [];
  }

  lemma NormalizedSplit(p: bytes)
    requires p != [] && p[0] == SLASH
    ensures Normalized(p) == AppendAll([SLASH], Split(p))
  {
    hide CompEnd, Append, LoopComps, Split;
    var comps := LoopComps(p, 1);
    LoopSplits(p, 1);
    assert p == [] + [SLASH] + p[1..];
    SplitJoin([], p[1..]);
    SplitOne([]);
    SkipsEmpty([SLASH]);
    AppendAllConcat([SLASH], [[]], Split(p[1..]));
    if Split(p[1..]) == comps + [[]] {
      AppendAllConcat([SLASH], comps, [[]]);
      if AppendAll([SLASH], comps).Some? {
        SkipsEmpty(AppendAll([SLASH], comps).value);
      }
    }
  }

  lemma {:induction false} AppendAllConcat(o: bytes, a: seq<bytes>, b: seq<bytes>)
    requires |o| >= 1
    ensures var first := AppendAll(o, a);
            AppendAll(o, a + b) == if first.None? then None else AppendAll(first.value, b)
    decreases |a|
  {
    hide Append;
    if a == [] {
      Unit(b);
    } else {
      assert (a + b)[1..] == a[1..] + b;
      if Append(o, a[0]).Some? {
        AppendAllConcat(Append(o, a[0]).value, a[1..], b);
      }
    }
  }

  // So an absolute input fails exactly where a name does not fit behind those in front of it.
  lemma ResolveFails(p: bytes, c: bytes, cwd: Option<bytes>)
    requires cwd.Some? ==> cwd.value != []
    requires (p == [] || p[0] == 47) && 47 !in c
    ensures var was := if p == [] then Some([47]) else Resolved(p, cwd);
            Resolved(p + [47] + c, cwd).None? <==>
            was.None? || (c != [] && c != [46] && c != [46, 46] && |Spell(Names(p), true)| + |c| >= 256)
  {
    hide Split, Fold, LastEffective, Spell, IsName, StripToSlash;
    var q := p + [47] + c;
    assert q[0] == 47;
    NormalizedStep(p, c);
    var was := if p == [] then Some([SLASH]) else Normalized(p);
    if was.Some? {
      if p == [] {
        RootNames();
      } else {
        NormalizeFolds(p);
      }
      var ends := p != [] && EndsInDots(p);
      SpellRoot(false);
      assert was.value == Spell(Names(p), ends);
      SpellShape(Names(p), ends);
      SpellRoot(true);
      SpellRoot(ends);
      if Names(p) != [] {
        SpellOpenAt(Names(p));
      }
    }
  }

  // A relative path of a sane directory resolves exactly when the joined path fits.
  lemma ResolveSucceeds(input: bytes, cwd: bytes)
    requires cwd != [] && cwd[0] == SLASH && input != [] && input[0] != SLASH
    ensures Resolved(input, Some(cwd)).Some? <==> Joined(cwd, StripDotSlash(input)).Some?
  {
    var joined := Joined(cwd, StripDotSlash(input));
    if joined.Some? {
      NormalizeSucceeds(joined.value);
    }
  }

  // A result of an input that ends in '/' is shorter, or ends in '/' itself.
  lemma {:induction false} LoopLength(o: bytes, p: bytes, i: nat)
    requires 1 <= |o| <= i <= |p| < PATH_MAX && o[0] == SLASH && p[|p| - 1] == SLASH
    requires |o| < i || o[|o| - 1] == SLASH
    ensures AppendAll(o, LoopComps(p, i)).Some?
    ensures var r := AppendAll(o, LoopComps(p, i)).value;
            |r| < |p| || (|r| == |p| && r[|r| - 1] == SLASH)
    decreases |p| - i
  {
    hide CompEnd, Append;
    if i < |p| {
      var e := CompEnd(p, i);
      var i' := if e < |p| then e + 1 else e;
      StepFits(o, p, i);
      StepEnds(o, p, i);
      LoopLength(Append(o, p[i..e]).value, p, i');
      LoopStep(o, p, i);
    } else {
      AppendNone(o, p);
    }
  }

  // The last component, in front of a final '/', leaves room for it.
  lemma StepEnds(o: bytes, p: bytes, i: nat)
    requires 1 <= |o| <= i < |p| < PATH_MAX && o[0] == SLASH && p[|p| - 1] == SLASH
    requires |o| < i || o[|o| - 1] == SLASH
    ensures var e := CompEnd(p, i);
            var r := Append(o, p[i..e]);
            e < |p| && r.Some? && 1 <= |r.value| && (|r.value| < e + 1 || r.value[|r.value| - 1] == SLASH)
  {
    StepFits(o, p, i);
    var e := CompEnd(p, i);
    assert p[i..|p|][|p| - 1 - i] == SLASH;
  }

  // A directory, with the separator that it needs, takes no more room than the path it was
  // resolved from: as much as that path's own text and separator.
  lemma DirFits(cwd: bytes, a: bytes)
    requires cwd != [] && cwd[0] == SLASH && a != [] && a[0] != SLASH
    requires Resolved(a, Some(cwd)).Some?
    ensures var dir := Resolved(a, Some(cwd)).value;
            && dir != [] && dir[0] == SLASH
            && |Bare(dir)| <= |Bare(cwd)| + if a == [DOT] then 0 else 1 + |StripDotSlash(a)|
  {
    hide Normalized, Split, Fold;
    ResolveNames(a, cwd);
    var joined := Joined(cwd, StripDotSlash(a)).value;
    NormalizeSucceeds(joined);
    assert joined == Bare(cwd) + [SLASH] + StripDotSlash(a);
    if a == [DOT] {
      DotFits(Bare(cwd));
    }
  }

  // Resolving "." gives back the directory's own length at most.
  lemma DotFits(dir: bytes)
    requires |dir| + 2 < PATH_MAX && (dir == [] || dir[0] == SLASH)
    ensures var p := dir + [SLASH] + [DOT];
            Normalized(p).Some? && Normalized(p).value != [] && |Bare(Normalized(p).value)| <= |dir|
  {
    hide CompEnd, Split, Fold, AppendAll, LoopComps;
    var p := dir + [SLASH] + [DOT];
    var q := dir + [SLASH];
    NormalizeSucceeds(p);
    NormalizeSucceeds(q);
    NormalizeFolds(p);
    NormalizeFolds(q);
    assert q == dir + [SLASH] + [];
    SplitJoin(dir, []);
    SplitJoin(dir, [DOT]);
    SplitOne([]);
    SplitOne([DOT]);
    FoldConcat([], Split(dir), [[]]);
    FoldConcat([], Split(dir), [[DOT]]);
    FoldNoop(Fold([], Split(dir)), []);
    FoldNoop(Fold([], Split(dir)), [DOT]);
    assert (Split(dir) + [[]])[..|Split(dir)|] == Split(dir);
    assert (Split(dir) + [[DOT]])[..|Split(dir)|] == Split(dir);
    assert Normalized(p) == Normalized(q);
    SlashFits(q);
  }

  lemma SlashFits(q: bytes)
    requires q != [] && q[0] == SLASH && q[|q| - 1] == SLASH && |q| < PATH_MAX
    ensures Normalized(q).Some? && Normalized(q).value != [] && |Bare(Normalized(q).value)| <= |q| - 1
  {
    LoopLength([SLASH], q, 1);
  }

  // The directory never needs more room than the text that was resolved, so b fits behind it
  // whenever a/b fits behind the working directory.
  lemma InnerSucceeds(a: bytes, b: bytes, cwd: bytes)
    requires cwd != [] && cwd[0] == SLASH
    requires Resolved(a, Some(cwd)).Some? && b != [] && b[0] != SLASH
    ensures Resolved(a, Some(cwd)).value != []
    ensures Resolved(a + [SLASH] + b, Some(cwd)).Some? && (a[0] != SLASH || |a| + 1 + |b| < PATH_MAX) ==>
              Resolved(b, Resolved(a, Some(cwd))).Some?
  {
    hide Normalized, Split, Fold;
    ResolveNames(a, cwd);
    var dir := Resolved(a, Some(cwd)).value;
    var ab := a + [SLASH] + b;
    assert ab[0] == a[0];
    if Resolved(ab, Some(cwd)).Some? && (a[0] != SLASH || |ab| < PATH_MAX) {
      if a[0] == SLASH {
        NormalizeSucceeds(a);
      } else {
        DirFits(cwd, a);
        StripOfJoin(a, b);
      }
      ResolveSucceeds(b, dir);
    }
  }

  lemma StripOfJoin(a: bytes, b: bytes)
    requires a != []
    ensures |StripDotSlash(a + [SLASH] + b)| ==
            if a == [DOT] then |b| else |StripDotSlash(a)| + 1 + |b|
  {
    var ab := a + [SLASH] + b;
    assert ab[0] == a[0] && ab[1] == if |a| > 1 then a[1] else SLASH;
  }

  // Resolving is compositional: b against the directory that a resolves to, and a/b.
  lemma ResolveComposes(a: bytes, b: bytes, cwd: bytes)
    requires cwd != [] && cwd[0] == SLASH
    requires Resolved(a, Some(cwd)).Some? && b != [] && b[0] != SLASH
    ensures Resolved(a, Some(cwd)).value != []
    ensures var inner := Resolved(b, Resolved(a, Some(cwd)));
            var whole := Resolved(a + [SLASH] + b, Some(cwd));
            && (inner.Some? && whole.Some? ==> Names(inner.value) == Names(whole.value))
            && (whole.Some? && (a[0] != SLASH || |a| + 1 + |b| < PATH_MAX) ==> inner.Some?)
  {
    InnerSucceeds(a, b, cwd);
    var dir := Resolved(a, Some(cwd)).value;
    ResolveNames(a, cwd);
    var inner := Resolved(b, Some(dir));
    var whole := Resolved(a + [SLASH] + b, Some(cwd));
    if inner.Some? && whole.Some? {
      ResolveNames(b, dir);
      ResolveNames(a + [SLASH] + b, cwd);
      SplitJoin(a, b);
      FoldConcat(if a[0] == SLASH then [] else Names(cwd), Split(a), Split(b));
    }
  }
}
