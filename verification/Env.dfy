// The environment table (src/features/env.rs): parallel arrays with shift-left deletion,
// described by an ordered list of bindings.
module Env {
  import opened Bytes
  import opened Buffer

  const ENV_MAX: nat := 32
  const ENV_KEY_MAX: nat := 64
  const ENV_VAL_MAX: nat := 128

  // ----- The table as a list of bindings -----

  datatype Binding = Binding(key: bytes, val: bytes)

  type Table = seq<Binding>

  function Find(t: Table, key: bytes): (i: nat)
    ensures i <= |t|
    ensures i < |t| ==> t[i].key == key
    ensures forall k :: 0 <= k < i ==> t[k].key != key
  {
    if t == [] || t[0].key == key then 0 else 1 + Find(t[1..], key)
  }

  function Lookup(t: Table, key: bytes): Option<bytes> {
    var i := Find(t, key);
    if i < |t| then Some(t[i].val) else None
  }

  // Values are cut to 127 bytes and new keys to 63; a full table ignores new keys.
  function Set(t: Table, key: bytes, val: bytes): Table {
    var i := Find(t, key);
    var v := Take(val, ENV_VAL_MAX - 1);
    if key == [] then t
    else if i < |t| then t[i := t[i].(val := v)]
    else if |t| >= ENV_MAX then t
    else t + [Binding(Take(key, ENV_KEY_MAX - 1), v)]
  }

  function Unset(t: Table, key: bytes): Table {
    var i := Find(t, key);
    if i < |t| then t[..i] + t[i + 1..] else t
  }

  ghost predicate Unique(t: Table) {
    forall i, j :: 0 <= i < j < |t| ==> t[i].key != t[j].key
  }

  // The sizes every reachable table has.
  ghost predicate Sized(t: Table) {
    && |t| <= ENV_MAX
    && forall i :: 0 <= i < |t| ==> 0 < |t[i].key| < ENV_KEY_MAX && |t[i].val| < ENV_VAL_MAX
  }

  // ----- It is a finite map -----

  lemma UnsetMissing(t: Table, key: bytes)
    requires Find(t, key) == |t|
    ensures Unset(t, key) == t
  {
  }

  lemma UnsetRows(t: Table, key: bytes, i: nat, after: Table)
    requires i == Find(t, key) < |t| && after == Unset(t, key)
    ensures |after| == |t| - 1
    ensures forall k :: 0 <= k < i ==> after[k] == t[k]
    ensures forall k :: i <= k < |t| - 1 ==> after[k] == t[k + 1]
  {
    hide Find;
  }

  lemma {:induction false} FindIs(t: Table, key: bytes, i: nat)
    requires i <= |t| && (i < |t| ==> t[i].key == key)
    requires forall k :: 0 <= k < i ==> t[k].key != key
    ensures Find(t, key) == i
  {
    var j := Find(t, key);
  }

  // Setting changes exactly one entry of the map, if the key is known or there is room.
  lemma LookupSet(t: Table, key: bytes, val: bytes, other: bytes)
    requires 0 < |key| < ENV_KEY_MAX && (Lookup(t, key).Some? || |t| < ENV_MAX)
    ensures Lookup(Set(t, key, val), other) ==
            if other == key then Some(Take(val, ENV_VAL_MAX - 1)) else Lookup(t, other)
  {
    hide Find;
    var s := Set(t, key, val);
    var j := Find(t, other);
    assert Take(key, ENV_KEY_MAX - 1) == key;
    assert forall n :: 0 <= n < |t| ==> s[n].key == t[n].key;
    FindIs(s, other, if j == |t| && other != key then |s| else j);
  }

  // An empty key sets nothing, and neither does a new one when there are 32 rows.
  lemma SetIgnored(t: Table, key: bytes, val: bytes)
    ensures Set(t, key, val) == t <==>
            key == [] || (Lookup(t, key).None? && |t| >= 32) || Lookup(t, key) == Some(val[..Min(|val|, 127)])
    ensures Lookup(t, key).Some? ==>
              |Set(t, key, val)| == |t| && forall k :: 0 <= k < |t| ==> Set(t, key, val)[k].key == t[k].key
    ensures Set(t, key, val) != t && Lookup(t, key).None? ==>
              Set(t, key, val) == t + [Binding(key[..Min(|key|, 63)], val[..Min(|val|, 127)])]
  {
    hide Find;
    var i := Find(t, key);
    if i < |t| && key != [] {
      assert Set(t, key, val)[i].val == val[..Min(|val|, 127)];
    }
  }

  // Does a row from position i on hold the key?
  predicate HeldFrom(t: Table, key: bytes, i: nat) {
    exists k :: i <= k < |t| && t[k].key == key
  }

  // Unsetting leaves the lookup of every other key as it is,
  lemma LookupUnset(t: Table, key: bytes, other: bytes)
    requires other != key
    ensures Lookup(Unset(t, key), other) == Lookup(t, other)
  {
    hide Find;
    var s := Unset(t, key);
    var i, j := Find(t, key), Find(t, other);
    if i < |t| {
      UnsetRows(t, key, i, s);
      hide Unset;
      assert j != i;
      FindIs(s, other, if j < i then j else j - 1);
    }
  }

  // and removes the key exactly when no second row holds it,
  lemma UnsetRemoves(t: Table, key: bytes)
    ensures Lookup(Unset(t, key), key).None? <==> !HeldFrom(t, key, Find(t, key) + 1)
  {
    hide Find, Unset;
    var s := Unset(t, key);
    var i := Find(t, key);
    if i == |t| {
      UnsetMissing(t, key);
    } else {
      UnsetRows(t, key, i, s);
      var k := Find(s, key);
      if HeldFrom(t, key, i + 1) {
        var m :| i + 1 <= m < |t| && t[m].key == key;
        assert s[m - 1] == t[m];
      }
    }
  }

  // as in every table with distinct keys.
  lemma UniqueHeldOnce(t: Table, key: bytes)
    requires Unique(t)
    ensures !HeldFrom(t, key, Find(t, key) + 1)
  {
    hide Find;
    var i := Find(t, key);
    assert forall k :: i < k < |t| ==> t[k].key != t[i].key;
  }

  // A key of 64 bytes or more that is set twice takes two rows: unsetting the stored key once
  // leaves one of them.
  lemma LongKeyStays(key: bytes, val: bytes)
    requires |key| >= ENV_KEY_MAX
    ensures var cut := Take(key, ENV_KEY_MAX - 1);
            Lookup(Unset(Set(Set([], key, val), key, val), cut), cut) == Some(Take(val, ENV_VAL_MAX - 1))
  {
    var cut := Take(key, ENV_KEY_MAX - 1);
    var row := Binding(cut, Take(val, ENV_VAL_MAX - 1));
    assert cut != key;
    FindIs([], key, 0);
    assert Set([], key, val) == [row];
    FindIs([row], key, 1);
    assert Set([row], key, val) == [row, row];
    FindIs([row, row], cut, 0);
    assert Unset([row, row], cut) == [row];
    FindIs([row], cut, 0);
  }

  // Keys stay distinct, except when a key of 64 bytes or more is cut to one already there.
  lemma SetKeepsUnique(t: Table, key: bytes, val: bytes)
    requires Unique(t)
    ensures Unique(Set(t, key, val)) <==>
            key == [] || Lookup(t, key).Some? || |t| >= ENV_MAX || Lookup(t, Take(key, ENV_KEY_MAX - 1)).None?
  {
    var i, cut := Find(t, key), Find(t, Take(key, ENV_KEY_MAX - 1));
    var s := Set(t, key, val);
    if key != [] && i == |t| && |t| < ENV_MAX && cut < |t| {
      assert s[cut].key == s[|t|].key;
    }
  }

  lemma UnsetKeepsUnique(t: Table, key: bytes)
    requires Unique(t)
    ensures Unique(Unset(t, key))
  {
  }

  datatype Op = SetOp(key: bytes, val: bytes) | UnsetOp(key: bytes)

  function Apply(t: Table, op: Op): Table {
    match op
    case SetOp(key, val) => Set(t, key, val)
    case UnsetOp(key) => Unset(t, key)
  }

  function ApplyAll(t: Table, ops: seq<Op>): Table
    decreases |ops|
  {
    if ops == [] then t else ApplyAll(Apply(t, ops[0]), ops[1..])
  }

  // Over whole runs: tables stay within bounds, and keys stay distinct while no key longer
  // than 63 bytes is set.
  lemma {:induction false} RunsKeepTable(t: Table, ops: seq<Op>)
    requires Sized(t)
    ensures Sized(ApplyAll(t, ops))
    ensures Unique(t) && (forall k :: 0 <= k < |ops| ==> ops[k].SetOp? ==> |ops[k].key| < ENV_KEY_MAX) ==>
              Unique(ApplyAll(t, ops))
    decreases |ops|
  {
    hide Sized, Unique, Apply;
    if ops != [] {
      ApplyKeepsTable(t, ops[0]);
      RunsKeepTable(Apply(t, ops[0]), ops[1..]);
    }
  }

  lemma ApplyKeepsTable(t: Table, op: Op)
    requires Sized(t)
    ensures Sized(Apply(t, op))
    ensures Unique(t) && (op.SetOp? ==> |op.key| < ENV_KEY_MAX) ==> Unique(Apply(t, op))
  {
    match op
    case SetOp(key, val) =>
      SetKeepsSized(t, key, val);
      if Unique(t) {
        SetKeepsUnique(t, key, val);
        assert |key| < ENV_KEY_MAX ==> Take(key, ENV_KEY_MAX - 1) == key;
      }
      hide Set, Sized, Unique;
    case UnsetOp(key) =>
      UnsetKeepsSized(t, key);
      if Unique(t) {
        UnsetKeepsUnique(t, key);
      }
      hide Unset, Sized, Unique;
  }

  lemma SetKeepsSized(t: Table, key: bytes, val: bytes)
    requires Sized(t)
    ensures Sized(Set(t, key, val))
  {
    hide Find;
  }

  lemma UnsetKeepsSized(t: Table, key: bytes)
    requires Sized(t)
    ensures Sized(Unset(t, key))
  {
    hide Find;
  }

  // ----- Environment strings -----

  function EnvString(b: Binding): bytes {
    b.key + [EQUALS] + b.val + [NUL]
  }

  function IndexOf(text: bytes, b: byte): (i: nat)
    ensures i <= |text|
    ensures i < |text| ==> text[i] == b
    ensures b !in text[..i]
  {
    if text == [] || text[0] == b then 0
    else
      var i := 1 + IndexOf(text[1..], b);
      assert text[..i] == [text[0]] + text[1..][..i - 1];
      i
  }

  // Reading a row as a C string and splitting it at its first '='.
  function Decode(row: bytes): Option<Binding> {
    var s := row[..IndexOf(row, NUL)];
    var eq := IndexOf(s, EQUALS);
    if eq < |s| then Some(Binding(s[..eq], s[eq + 1..])) else None
  }

  lemma IndexOfAt(text: bytes, b: byte, i: nat)
    requires i < |text| && text[i] == b && b !in text[..i]
    ensures IndexOf(text, b) == i
  {
    var j := IndexOf(text, b);
    assert forall k :: 0 <= k < j ==> text[..j][k] == text[k];
    assert forall k :: 0 <= k < i ==> text[..i][k] == text[k];
  }

  // Each environment string gives back its binding, whatever is left behind it in the row.
  lemma DecodeEnvString(b: Binding, stale: bytes)
    requires NUL !in b.key && NUL !in b.val && EQUALS !in b.key
    ensures Decode(EnvString(b) + stale) == Some(b)
  {
    var row := EnvString(b) + stale;
    var s := b.key + [EQUALS] + b.val;
    assert row[..|s|] == s;
    assert NUL !in s;
    IndexOfAt(row, NUL, |s|);
    assert s[..|b.key|] == b.key;
    IndexOfAt(s, EQUALS, |b.key|);
  }

  // ----- Variable expansion, unbounded -----

  predicate IsNameByte(b: byte) {
    IsDigit(b) || IsNameStart(b)
  }

  predicate IsNameStart(b: byte) {
    'A' as int <= b <= 'Z' as int || 'a' as int <= b <= 'z' as int || b == UNDERSCORE
  }

  function NameEnd(line: bytes, i: nat): (j: nat)
    requires i <= |line|
    ensures i <= j <= |line|
    ensures j < |line| ==> !IsNameByte(line[j])
    ensures forall k :: i <= k < j ==> IsNameByte(line[k])
    decreases |line| - i
  {
    if i < |line| && IsNameByte(line[i]) then NameEnd(line, i + 1) else i
  }

  // The pieces a line is cut into, whatever the table holds.
  datatype Piece = Plain(b: byte) | Braced(name: bytes) | Named(name: bytes)

  function Source(p: Piece): (s: bytes)
    ensures s != []
  {
    match p
    case Plain(b) => [b]
    case Braced(name) => [DOLLAR, LBRACE] + name + [RBRACE]
    case Named(name) => [DOLLAR] + name
  }

  function Subst(t: Table, p: Piece): bytes {
    match p
    case Plain(b) => [b]
    case Braced(name) => ValueOf(t, name)
    case Named(name) => ValueOf(t, name)
  }

  function ValueOf(t: Table, name: bytes): bytes {
    var v := Lookup(t, name);
    if v.Some? then v.value else []
  }

  predicate OpensBrace(line: bytes) {
    |line| > 1 && line[0] == DOLLAR && line[1] == LBRACE
  }

  // The piece at the head of a line.
  function HeadPiece(line: bytes): (p: Piece)
    requires line != []
    ensures |Source(p)| <= |line| && line[..|Source(p)|] == Source(p)
  {
    if OpensBrace(line) then
      var j := IndexOf(line[2..], RBRACE);
      if j < |line| - 2 then
        assert line[..j + 3] == [DOLLAR, LBRACE] + line[2..][..j] + [RBRACE];
        Braced(line[2..][..j])
      else Plain(line[0])
    else if line[0] == DOLLAR && |line| > 1 && IsNameStart(line[1]) then
      var j := NameEnd(line, 1);
      assert line[..j] == [DOLLAR] + line[1..j];
      Named(line[1..j])
    else Plain(line[0])
  }

  function Pieces(line: bytes): seq<Piece> {
    if line == [] then []
    else
      var p := HeadPiece(line);
      [p] + Pieces(line[|Source(p)|..])
  }

  function SubstAll(t: Table, ps: seq<Piece>): bytes {
    if ps == [] then [] else Subst(t, ps[0]) + SubstAll(t, ps[1..])
  }

  function SourceAll(ps: seq<Piece>): bytes {
    if ps == [] then [] else Source(ps[0]) + SourceAll(ps[1..])
  }

  // Substituted values are never scanned again: the cut is made before any value is known.
  function ExpandVars(t: Table, line: bytes): bytes {
    SubstAll(t, Pieces(line))
  }

  lemma {:induction false} PiecesCoverLine(line: bytes)
    ensures SourceAll(Pieces(line)) == line
  {
    if line != [] {
      var p := HeadPiece(line);
      PiecesCoverLine(line[|Source(p)|..]);
      assert line == line[..|Source(p)|] + line[|Source(p)|..];
    }
  }

  lemma {:induction false} SubstConcat(t: Table, a: seq<Piece>, b: seq<Piece>)
    ensures SubstAll(t, a + b) == SubstAll(t, a) + SubstAll(t, b)
  {
    if a == [] {
      assert a + b == b;
    } else {
      assert (a + b)[1..] == a[1..] + b;
      SubstConcat(t, a[1..], b);
    }
  }

  // Is every "${" that the scan of a meets closed within a?
  predicate Closed(a: bytes) {
    a == [] ||
    ((OpensBrace(a) ==> RBRACE in a[2..]) && Closed(a[|Source(HeadPiece(a))|..]))
  }

  // A head that is closed does not see what follows a blank.
  lemma HeadBeforeBlank(a: bytes, b: bytes)
    requires a != [] && (OpensBrace(a) ==> RBRACE in a[2..])
    ensures HeadPiece(a + [SPACE] + b) == HeadPiece(a)
  {
    var line := a + [SPACE] + b;
    if OpensBrace(a) {
      var j := IndexOf(a[2..], RBRACE);
      assert j < |a| - 2;
      assert line[2..][..j] == a[2..][..j];
      IndexOfAt(line[2..], RBRACE, j);
    } else if a[0] == DOLLAR && |a| > 1 && IsNameStart(a[1]) {
      var j, k := NameEnd(a, 1), NameEnd(line, 1);
      assert forall i :: 0 <= i < |a| ==> line[i] == a[i];
      assert line[|a|] == SPACE;
      assert j == k;
      assert line[1..j] == a[1..j];
    }
  }

  lemma PiecesUnfold(line: bytes, p: Piece, rest: bytes)
    requires line != [] && HeadPiece(line) == p && line[|Source(p)|..] == rest
    ensures Pieces(line) == [p] + Pieces(rest)
  {
  }

  lemma {:induction false} PiecesBeforeBlank(a: bytes, b: bytes)
    requires Closed(a)
    ensures Pieces(a + [SPACE] + b) == Pieces(a) + [Plain(SPACE)] + Pieces(b)
  {
    hide HeadPiece, Pieces, Source;
    var line := a + [SPACE] + b;
    if a == [] {
      BlankPiece(b);
      assert line == [SPACE] + b;
    } else {
      var p := HeadPiece(a);
      var n := |Source(p)|;
      HeadBeforeBlank(a, b);
      PiecesBeforeBlank(a[n..], b);
      hide Closed, OpensBrace;
      assert line[n..] == a[n..] + [SPACE] + b;
      PiecesUnfold(line, p, a[n..] + [SPACE] + b);
      PiecesUnfold(a, p, a[n..]);
      Assoc([p], Pieces(a[n..]) + [Plain(SPACE)], Pieces(b));
      Assoc([p], Pieces(a[n..]), [Plain(SPACE)]);
    }
  }

  lemma BlankPiece(b: bytes)
    ensures Pieces([SPACE] + b) == Pieces([]) + [Plain(SPACE)] + Pieces(b)
  {
    hide Pieces;
    DropHead([SPACE], b);
    assert HeadPiece([SPACE] + b) == Plain(SPACE);
    PiecesUnfold([SPACE] + b, Plain(SPACE), b);
    assert Pieces([]) == [] by { NoPieces(); }
    Unit([Plain(SPACE)]);
  }

  lemma NoPieces()
    ensures Pieces([]) == []
  {
  }

  lemma SubstOne(t: Table, p: Piece)
    ensures SubstAll(t, [p]) == Subst(t, p) && SubstAll(t, []) == []
  {
    assert [p][1..] == [];
  }

  lemma ExpandDistributes(t: Table, a: bytes, b: bytes)
    requires Closed(a)
    ensures ExpandVars(t, a + [SPACE] + b) == ExpandVars(t, a) + [SPACE] + ExpandVars(t, b)
  {
    hide Pieces, SubstAll, Closed;
    PiecesBeforeBlank(a, b);
    var blank := [Plain(SPACE)];
    SubstConcat(t, Pieces(a) + blank, Pieces(b));
    SubstConcat(t, Pieces(a), blank);
    SubstOne(t, Plain(SPACE));
  }

  lemma ExpandHead(t: Table, line: bytes, p: Piece, rest: bytes)
    requires line != [] && HeadPiece(line) == p && line[|Source(p)|..] == rest
    ensures ExpandVars(t, line) == Subst(t, p) + ExpandVars(t, rest)
  {
    PiecesUnfold(line, p, rest);
    SubstConcat(t, [p], Pieces(rest));
    SubstOne(t, p);
  }

  // Text without '$' is copied, and the two forms of a reference stand for the value.
  lemma {:induction false} PlainExpands(t: Table, pre: bytes, rest: bytes)
    requires DOLLAR !in pre
    ensures ExpandVars(t, pre + rest) == pre + ExpandVars(t, rest)
  {
    hide ExpandVars;
    if pre == [] {
      Unit(rest);
      Unit(ExpandVars(t, rest));
    } else {
      var b := pre[0];
      assert b in pre && pre == [b] + pre[1..];
      PlainExpands(t, pre[1..], rest);
      Assoc([b], pre[1..], rest);
      DropHead([b], pre[1..] + rest);
      ExpandHead(t, pre + rest, Plain(b), pre[1..] + rest);
      Assoc([b], pre[1..], ExpandVars(t, rest));
    }
  }

  lemma BracedExpands(t: Table, name: bytes, rest: bytes)
    requires RBRACE !in name
    ensures ExpandVars(t, [DOLLAR, LBRACE] + name + [RBRACE] + rest) == ValueOf(t, name) + ExpandVars(t, rest)
  {
    hide ExpandVars, ValueOf;
    var line := [DOLLAR, LBRACE] + name + [RBRACE] + rest;
    assert line[2..] == name + [RBRACE] + rest;
    DropHead(name, [RBRACE] + rest);
    Assoc(name, [RBRACE], rest);
    IndexOfAt(line[2..], RBRACE, |name|);
    DropHead([DOLLAR, LBRACE] + name + [RBRACE], rest);
    ExpandHead(t, line, Braced(name), rest);
  }

  // A digit, a letter or an underscore, by its code.
  predicate InName(b: byte) {
    48 <= b <= 57 || 65 <= b <= 90 || 97 <= b <= 122 || b == 95
  }

  // Any other '$' (36) is copied: at the end, before a byte that starts no name, and in front
  // of a brace (123) that is never closed (125).
  lemma LoneDollar(t: Table, rest: bytes)
    requires rest == [] || (48 <= rest[0] <= 57) || (rest[0] == 123 && 125 !in rest[1..]) ||
             (rest[0] != 123 && !InName(rest[0]))
    ensures ExpandVars(t, [36] + rest) == [36] + ExpandVars(t, rest)
  {
    hide ExpandVars;
    var line := [36] + rest;
    DropHead([36], rest);
    if OpensBrace(line) {
      assert line[2..] == rest[1..];
      var j := IndexOf(line[2..], RBRACE);
      assert j == |line| - 2;
    }
    ExpandHead(t, line, Plain(36), rest);
  }

  lemma NamedExpands(t: Table, name: bytes, rest: bytes)
    requires name != [] && !(48 <= name[0] <= 57) && forall k :: 0 <= k < |name| ==> InName(name[k])
    requires rest == [] || !InName(rest[0])
    ensures ExpandVars(t, [36] + name + rest) == ValueOf(t, name) + ExpandVars(t, rest)
  {
    hide ExpandVars, ValueOf;
    var line := [DOLLAR] + name + rest;
    var j := NameEnd(line, 1);
    assert forall k :: 1 <= k < |name| + 1 ==> line[k] == name[k - 1];
    assert rest != [] ==> line[|name| + 1] == rest[0];
    assert j == |name| + 1;
    assert line[1..j] == name;
    DropHead([DOLLAR] + name, rest);
    ExpandHead(t, line, Named(name), rest);
  }

  // An unclosed "${" takes in the blank and a later '}'.
  lemma {:induction false} UnclosedDiffers(a: bytes)
    requires !Closed(a)
    ensures ExpandVars([], a + [SPACE] + [RBRACE]) != ExpandVars([], a) + [SPACE] + ExpandVars([], [RBRACE])
  {
    hide HeadPiece, ExpandVars, Find;
    var line := a + [SPACE] + [RBRACE];
    if OpensBrace(a) && RBRACE !in a[2..] {
      SwallowsRest(a);
    } else {
      var p := HeadPiece(a);
      var n := |Source(p)|;
      var rest := ExpandVars([], [RBRACE]);
      HeadBeforeBlank(a, [RBRACE]);
      UnclosedDiffers(a[n..]);
      assert line[n..] == a[n..] + [SPACE] + [RBRACE];
      ExpandHead([], line, p, a[n..] + [SPACE] + [RBRACE]);
      ExpandHead([], a, p, a[n..]);
      Assoc(Subst([], p), ExpandVars([], a[n..]), [SPACE]);
      Assoc(Subst([], p), ExpandVars([], a[n..]) + [SPACE], rest);
      SameTail(Subst([], p), ExpandVars([], a[n..] + [SPACE] + [RBRACE]), ExpandVars([], a[n..]) + [SPACE] + rest);
    }
  }

  lemma SwallowsRest(a: bytes)
    requires OpensBrace(a) && RBRACE !in a[2..]
    ensures ExpandVars([], a + [SPACE] + [RBRACE]) == []
  {
    var line := a + [SPACE] + [RBRACE];
    var name := a[2..] + [SPACE];
    assert line[2..] == name + [RBRACE];
    assert line[2..][..|name|] == name;
    IndexOfAt(line[2..], RBRACE, |name|);
    var p := Braced(name);
    assert HeadPiece(line) == p && Source(p) == line;
    ExpandHead([], line, p, []);
    SubstOne([], p);
  }

  lemma SameTail(head: bytes, x: bytes, y: bytes)
    requires x != y
    ensures head + x != head + y
  {
    assert x == (head + x)[|head|..];
    assert y == (head + y)[|head|..];
  }

  // Expansion works word by word after a exactly when a closes its braces.
  lemma DistributesIffClosed(a: bytes)
    ensures (forall t: Table, b: bytes ::
               ExpandVars(t, a + [SPACE] + b) == ExpandVars(t, a) + [SPACE] + ExpandVars(t, b)) <==> Closed(a)
  {
    if Closed(a) {
      forall t: Table, b: bytes
        ensures ExpandVars(t, a + [SPACE] + b) == ExpandVars(t, a) + [SPACE] + ExpandVars(t, b)
      {
        ExpandDistributes(t, a, b);
      }
    } else {
      UnclosedDiffers(a);
    }
  }

  // ----- Tilde expansion, unbounded -----

  const HOME_KEY: bytes := ['H' as int, 'O' as int, 'M' as int, 'E' as int]
  const USERS: bytes := [SLASH, 'u' as int, 's' as int, 'e' as int, 'r' as int, 's' as int, SLASH]
  const DEFAULT_HOME: bytes := USERS + ['r' as int, 'o' as int, 'o' as int, 't' as int]

  function UserEnd(line: bytes, i: nat): (j: nat)
    requires i <= |line|
    ensures i <= j <= |line|
    ensures j < |line| ==> line[j] == SLASH || IsBlank(line[j])
    ensures forall k :: i <= k < j ==> line[k] != SLASH && !IsBlank(line[k])
    decreases |line| - i
  {
    if i < |line| && line[i] != SLASH && !IsBlank(line[i]) then UserEnd(line, i + 1) else i
  }

  function HomeOf(t: Table): bytes {
    var home := Lookup(t, HOME_KEY);
    if home.Some? then home.value else DEFAULT_HOME
  }

  predicate StartsWord(b: byte) {
    b == SPACE || b == TAB
  }

  // The head of a line; atStart says that a word can start here.
  function TildeHead(t: Table, line: bytes, atStart: bool): (r: (bytes, nat))
    requires line != []
    ensures 0 < r.1 <= |line|
  {
    if line[0] == TILDE && atStart then
      var j := UserEnd(line, 1);
      (if j == 1 then HomeOf(t) else USERS + line[1..j], j)
    else ([line[0]], 1)
  }

  function ExpandTilde(t: Table, line: bytes, atStart: bool): bytes
    decreases |line|
  {
    if line == [] then []
    else
      var (text, k) := TildeHead(t, line, atStart);
      text + ExpandTilde(t, line[k..], StartsWord(line[k - 1]))
  }

  // Tilde expansion works word by word, always.
  lemma {:induction false} TildeDistributes(t: Table, a: bytes, b: bytes, atStart: bool)
    ensures ExpandTilde(t, a + [SPACE] + b, atStart) == ExpandTilde(t, a, atStart) + [SPACE] + ExpandTilde(t, b, true)
    decreases |a|
  {
    hide TildeHead, ExpandTilde;
    var line := a + [SPACE] + b;
    if a == [] {
      TildeBlank(t, b, atStart);
      assert line == [SPACE] + b;
    } else {
      var (text, k) := TildeHead(t, a, atStart);
      TildeHeadBeforeBlank(t, a, b, atStart);
      assert line[k..] == a[k..] + [SPACE] + b;
      TildeDistributes(t, a[k..], b, StartsWord(a[k - 1]));
      TildeUnfold(t, line, atStart);
      TildeUnfold(t, a, atStart);
      var rest := ExpandTilde(t, a[k..], StartsWord(a[k - 1]));
      Assoc(text, rest + [SPACE], ExpandTilde(t, b, true));
      Assoc(text, rest, [SPACE]);
    }
  }

  lemma TildeUnfold(t: Table, line: bytes, atStart: bool)
    requires line != []
    ensures var (text, k) := TildeHead(t, line, atStart);
            ExpandTilde(t, line, atStart) == text + ExpandTilde(t, line[k..], StartsWord(line[k - 1]))
  {
  }

  // A word "~user" stands for that user's directory, a bare "~" for the home directory.
  lemma TildeWord(t: Table, user: bytes, rest: bytes)
    requires forall k :: 0 <= k < |user| ==> user[k] !in [47, 32, 9, 10, 13]
    requires rest == [] || rest[0] in [47, 32, 9, 10, 13]
    ensures ExpandTilde(t, [126] + user + rest, true) ==
            (if user != [] then Ascii("/users/") + user
             else if Lookup(t, Ascii("HOME")).Some? then Lookup(t, Ascii("HOME")).value
             else Ascii("/users/root")) + ExpandTilde(t, rest, false)
  {
    hide ExpandTilde, Find;
    UserIs(user, rest);
    TildeUnfold(t, [126] + user + rest, true);
    DropHead([126] + user, rest);
    HomeNames();
    hide Ascii;
  }

  lemma HomeNames()
    ensures Ascii("/users/") == USERS && Ascii("HOME") == HOME_KEY && Ascii("/users/root") == DEFAULT_HOME
  {
  }

  lemma UserIs(user: bytes, rest: bytes)
    requires forall k :: 0 <= k < |user| ==> user[k] !in [47, 32, 9, 10, 13]
    requires rest == [] || rest[0] in [47, 32, 9, 10, 13]
    ensures var line := [126] + user + rest;
            var j := UserEnd(line, 1);
            j == |user| + 1 && line[1..j] == user && !StartsWord(line[j - 1])
  {
    var line := [126] + user + rest;
    var n := |user| + 1;
    assert forall k :: 1 <= k < n ==> line[k] == user[k - 1];
    assert rest != [] ==> line[n] == rest[0];
    var j := UserEnd(line, 1);
    assert j == n;
    assert line[1..j] == user;
  }

  // Where no word can start, or without '~' (126), bytes are copied; a word can start behind a
  // blank (32) or a tab (9).
  lemma TildePlain(t: Table, b: byte, rest: bytes, atStart: bool)
    requires b != 126 || !atStart
    ensures ExpandTilde(t, [b] + rest, atStart) == [b] + ExpandTilde(t, rest, b == 32 || b == 9)
  {
    DropHead([b], rest);
  }

  lemma TildeBlank(t: Table, b: bytes, atStart: bool)
    ensures ExpandTilde(t, [SPACE] + b, atStart) == ExpandTilde(t, [], atStart) + [SPACE] + ExpandTilde(t, b, true)
  {
    assert ([SPACE] + b)[1..] == b;
  }

  lemma TildeHeadBeforeBlank(t: Table, a: bytes, b: bytes, atStart: bool)
    requires a != []
    ensures TildeHead(t, a + [SPACE] + b, atStart) == TildeHead(t, a, atStart)
  {
    var line := a + [SPACE] + b;
    if a[0] == TILDE && atStart {
      assert forall i :: 0 <= i < |a| ==> line[i] == a[i];
      assert line[|a|] == SPACE;
      var j, k := UserEnd(line, 1), UserEnd(a, 1);
      assert j == k;
      assert line[1..k] == a[1..k];
    }
  }

  lemma ExpandEmpty(t: Table)
    ensures ExpandVars(t, []) == []
  {
  }

  lemma VarsStep(t: Table, line: bytes, i: nat, before: bytes)
    requires i < |line|
    ensures var p := HeadPiece(line[i..]);
            before + ExpandVars(t, line[i..]) == (before + Subst(t, p)) + ExpandVars(t, line[i + |Source(p)|..])
  {
    hide ExpandVars, HeadPiece, Subst, Source;
    var p := HeadPiece(line[i..]);
    var rest := line[i + |Source(p)|..];
    assert line[i..][|Source(p)|..] == rest;
    ExpandHead(t, line[i..], p, rest);
    Assoc(before, Subst(t, p), ExpandVars(t, rest));
  }

  lemma TildeEmpty(t: Table)
    ensures forall b :: ExpandTilde(t, [], b) == []
  {
  }

  lemma NameEndShift(line: bytes, i: nat)
    requires i < |line|
    ensures NameEnd(line[i..], 1) + i == NameEnd(line, i + 1)
  {
    var j, k := NameEnd(line[i..], 1), NameEnd(line, i + 1);
    assert forall n :: 0 <= n < |line| - i ==> line[i..][n] == line[n + i];
    assert j + i < |line| ==> !IsNameByte(line[j + i]);
    assert k < |line| ==> !IsNameByte(line[i..][k - i]);
  }

  lemma HeadBraced(line: bytes, i: nat)
    requires i + 1 < |line| && line[i] == DOLLAR && line[i + 1] == LBRACE
    ensures var j := i + 2 + IndexOf(line[i + 2..], RBRACE);
            HeadPiece(line[i..]) == if j < |line| then Braced(line[i + 2..j]) else Plain(DOLLAR)
  {
    hide IndexOf, NameEnd;
    var rest := line[i..];
    assert rest[2..] == line[i + 2..];
    var j := IndexOf(rest[2..], RBRACE);
    assert rest[2..][..j] == line[i + 2..i + 2 + j];
  }

  lemma HeadNamed(line: bytes, i: nat)
    requires i + 1 < |line| && line[i] == DOLLAR && IsNameStart(line[i + 1])
    ensures HeadPiece(line[i..]) == Named(line[i + 1..NameEnd(line, i + 1)])
  {
    hide IndexOf, NameEnd;
    NameEndShift(line, i);
    var rest := line[i..];
    assert rest[1..NameEnd(rest, 1)] == line[i + 1..NameEnd(line, i + 1)];
  }

  // The piece at position i, in terms of the positions the loop computes.
  lemma HeadCases(line: bytes, i: nat)
    requires i < |line|
    ensures HeadPiece(line[i..]) ==
            if line[i] == DOLLAR && i + 1 < |line| && line[i + 1] == LBRACE &&
               i + 2 + IndexOf(line[i + 2..], RBRACE) < |line|
            then Braced(line[i + 2..i + 2 + IndexOf(line[i + 2..], RBRACE)])
            else if line[i] == DOLLAR && i + 1 < |line| && IsNameStart(line[i + 1])
            then Named(line[i + 1..NameEnd(line, i + 1)])
            else Plain(line[i])
  {
    hide IndexOf, NameEnd;
    if line[i] == DOLLAR && i + 1 < |line| && line[i + 1] == LBRACE {
      HeadBraced(line, i);
      hide HeadPiece;
    } else if line[i] == DOLLAR && i + 1 < |line| && IsNameStart(line[i + 1]) {
      HeadNamed(line, i);
      hide HeadPiece;
    } else {
      assert i + 1 < |line| ==> line[i..][1] == line[i + 1];
    }
  }

  lemma UserEndShift(line: bytes, i: nat)
    requires i < |line|
    ensures UserEnd(line[i..], 1) + i == UserEnd(line, i + 1)
  {
    var j, k := UserEnd(line[i..], 1), UserEnd(line, i + 1);
    assert forall n :: 0 <= n < |line| - i ==> line[i..][n] == line[n + i];
    assert j + i < |line| ==> line[j + i] == line[i..][j];
    assert k < |line| ==> line[k] == line[i..][k - i];
  }

  // ----- The arrays -----

  class EnvTable {
    const keys: array<bytes>
    const keyLens: array<byte>
    const vals: array<bytes>
    const valLens: array<byte>
    var count: nat
    ghost var table: Table

    ghost predicate Shape()
      reads keys, keyLens, vals, valLens
    {
      && keys.Length == vals.Length == keyLens.Length == valLens.Length == ENV_MAX
      && keys != vals && keyLens != valLens
      && (forall i :: 0 <= i < ENV_MAX ==> |keys[i]| == ENV_KEY_MAX && keyLens[i] < ENV_KEY_MAX)
      && (forall i :: 0 <= i < ENV_MAX ==> |vals[i]| == ENV_VAL_MAX && valLens[i] < ENV_VAL_MAX)
    }

    // The binding a row of the arrays stands for.
    function Row(i: nat): Binding
      requires Shape() && i < ENV_MAX
      reads keys, keyLens, vals, valLens
    {
      Binding(keys[i][..keyLens[i]], vals[i][..valLens[i]])
    }

    ghost predicate Valid()
      reads this, keys, keyLens, vals, valLens
    {
      Shape() && count == |table| <= ENV_MAX && forall i :: 0 <= i < count ==> Row(i) == table[i]
    }

    constructor ()
      ensures Valid() && table == []
      ensures fresh(keys) && fresh(keyLens) && fresh(vals) && fresh(valLens)
    {
      keys := new bytes[ENV_MAX](_ => seq(ENV_KEY_MAX, _ => NUL));
      vals := new bytes[ENV_MAX](_ => seq(ENV_VAL_MAX, _ => NUL));
      keyLens := new byte[ENV_MAX](_ => 0);
      valLens := new byte[ENV_MAX](_ => 0);
      count, table := 0, [];
    }

    // The loop that get, set and unset share: the first row with this key, or count.
    method Locate(key: bytes) returns (i: nat)
      requires Valid()
      ensures i == Find(table, key)
    {
      i := 0;
      while i < count
        invariant 0 <= i <= count && forall k :: 0 <= k < i ==> table[k].key != key
      {
        assert Row(i) == table[i];
        if keys[i][..keyLens[i]] == key {
          FindIs(table, key, i);
          return;
        }
        i := i + 1;
      }
      FindIs(table, key, i);
    }

    method EnvGet(key: bytes) returns (r: Option<bytes>)
      requires Valid()
      ensures r == Lookup(table, key)
    {
      var i := Locate(key);
      if i < count {
        assert Row(i) == table[i];
        return Some(vals[i][..valLens[i]]);
      }
      r := None;
    }

    // Overwrites the value of a row.
    method StoreVal(i: nat, val: bytes)
      requires Shape() && i < ENV_MAX
      modifies vals, valLens
      ensures Shape() && Row(i) == Binding(old(Row(i)).key, Take(val, ENV_VAL_MAX - 1))
      ensures forall k :: 0 <= k < ENV_MAX && k != i ==> Row(k) == old(Row(k))
    {
      var vn := Min(|val|, ENV_VAL_MAX - 1);
      vals[i] := (val[..vn] + vals[i][vn..])[vn := NUL];
      valLens[i] := vn;
    }

    method StoreKey(i: nat, key: bytes)
      requires Shape() && i < ENV_MAX
      modifies keys, keyLens
      ensures Shape() && Row(i) == Binding(Take(key, ENV_KEY_MAX - 1), old(Row(i)).val)
      ensures forall k :: 0 <= k < ENV_MAX && k != i ==> Row(k) == old(Row(k))
    {
      var kn := Min(|key|, ENV_KEY_MAX - 1);
      keys[i] := (key[..kn] + keys[i][kn..])[kn := NUL];
      keyLens[i] := kn;
    }

    method EnvSet(key: bytes, val: bytes)
      requires Valid()
      modifies this, keys, keyLens, vals, valLens
      ensures Valid() && table == Set(old(table), key, val)
    {
      hide Find, Row, Shape;
      if key == [] {
        return;
      }
      var i := Locate(key);
      if i < count {
        StoreVal(i, val);
        table := table[i := table[i].(val := Take(val, ENV_VAL_MAX - 1))];
        return;
      }
      if count >= ENV_MAX {
        return;
      }
      var slot := count;
      StoreKey(slot, key);
      StoreVal(slot, val);
      count := count + 1;
      table := table + [Binding(Take(key, ENV_KEY_MAX - 1), Take(val, ENV_VAL_MAX - 1))];
    }

    // Copies row j + 1 over row j.
    method ShiftRow(j: nat)
      requires Shape() && j + 1 < ENV_MAX
      modifies keys, keyLens, vals, valLens
      ensures Shape() && Row(j) == old(Row(j + 1))
      ensures forall k :: 0 <= k < ENV_MAX && k != j ==> Row(k) == old(Row(k))
    {
      keys[j] := keys[j + 1];
      keyLens[j] := keyLens[j + 1];
      vals[j] := vals[j + 1];
      valLens[j] := valLens[j + 1];
    }

    // The shift-left loop: rows from i on move down by one.
    method ShiftFrom(i: nat)
      requires Shape() && i < count <= ENV_MAX
      modifies keys, keyLens, vals, valLens
      ensures Shape()
      ensures forall k :: 0 <= k < i ==> Row(k) == old(Row(k))
      ensures forall k :: i <= k < count - 1 ==> Row(k) == old(Row(k + 1))
    {
      hide Row, Shape;
      var j := i;
      while j < count - 1
        invariant i <= j < count <= ENV_MAX && Shape()
        invariant forall k :: 0 <= k < i ==> Row(k) == old(Row(k))
        invariant forall k :: i <= k < j ==> Row(k) == old(Row(k + 1))
        invariant forall k :: j <= k < count ==> Row(k) == old(Row(k))
      {
        ShiftRow(j);
        j := j + 1;
      }
    }

    method EnvUnset(key: bytes)
      requires Valid()
      modifies this, keys, keyLens, vals, valLens
      ensures Valid() && table == Unset(old(table), key)
    {
      hide Find, Row, Shape, Unset;
      var i := Locate(key);
      if i == count {
        assert Unset(table, key) == table by { UnsetMissing(table, key); }
        return;
      }
      ghost var before, after := table, Unset(table, key);
      UnsetRows(before, key, i, after);
      ShiftFrom(i);
      count := count - 1;
      assert forall k :: 0 <= k < i ==> Row(k) == before[k];
      assert forall k :: i <= k < count ==> Row(k) == before[k + 1];
      forall k | 0 <= k < count
        ensures Row(k) == after[k]
      {
      }
      table := after;
    }

    // One string per binding, in order, and a pointer to each, ended by 0; addr gives the
    // address of a row of strings.
    method BuildEnvp(strings: array<bytes>, ptrs: array<nat>, addr: nat -> nat) returns (n: nat)
      requires Valid() && strings.Length == ENV_MAX && ptrs.Length == ENV_MAX + 1
      requires ptrs as object != keyLens && ptrs as object != valLens
      requires strings != keys && strings != vals
      requires forall i :: 0 <= i < ENV_MAX ==> |strings[i]| == ENV_KEY_MAX + ENV_VAL_MAX + 2
      modifies strings, ptrs
      ensures n == |table| && n < ptrs.Length && ptrs[n] == 0 && forall i :: 0 <= i < n ==> ptrs[i] == addr(i)
      ensures forall i :: 0 <= i < n ==> |strings[i]| == ENV_KEY_MAX + ENV_VAL_MAX + 2
      ensures forall i :: 0 <= i < n ==> EnvString(table[i]) <= strings[i]
    {
      n := 0;
      while n < count
        invariant 0 <= n <= count && Valid()
        invariant forall i :: 0 <= i < ENV_MAX ==> |strings[i]| == ENV_KEY_MAX + ENV_VAL_MAX + 2
        invariant forall i :: 0 <= i < n ==> EnvString(table[i]) <= strings[i]
        invariant forall i :: 0 <= i < n ==> ptrs[i] == addr(i)
      {
        var b := Row(n);
        var text := b.key + [EQUALS] + b.val + [NUL];
        strings[n] := text + strings[n][|text|..];
        ptrs[n] := addr(n);
        n := n + 1;
      }
      ptrs[n] := 0;
    }

    method ScanName(line: bytes, from: nat) returns (j: nat)
      requires from <= |line|
      ensures j == NameEnd(line, from)
    {
      j := from;
      while j < |line| && IsNameByte(line[j])
        invariant from <= j <= |line| && NameEnd(line, j) == NameEnd(line, from)
      {
        j := j + 1;
      }
    }

    method ScanBrace(line: bytes, from: nat) returns (j: nat)
      requires from <= |line|
      ensures j == from + IndexOf(line[from..], RBRACE)
    {
      j := from;
      while j < |line| && line[j] != RBRACE
        invariant from <= j <= |line| && RBRACE !in line[from..j]
      {
        assert line[from..j + 1] == line[from..j] + [line[j]];
        j := j + 1;
      }
      assert line[from..][..j - from] == line[from..j];
      if j < |line| {
        IndexOfAt(line[from..], RBRACE, j - from);
      } else {
        assert line[from..] == line[from..j];
      }
    }

    // Pushes the value of a variable, or nothing.
    method PushValue(name: bytes, out: ByteVec)
      requires Valid() && out.Valid()
      requires keyLens != out.items && valLens != out.items
      modifies out, out.items
      ensures out.Valid() && out.pushed == old(out.pushed) + ValueOf(table, name)
    {
      hide Lookup;
      var val := EnvGet(name);
      if val.Some? {
        out.Extend(val.value);
      }
      assert val.None? ==> old(out.pushed) + [] == old(out.pushed);
    }

    // The loop body of expand_vars: pushes what the piece at i stands for.
    method ExpandPiece(line: bytes, i: nat, out: ByteVec) returns (next: nat)
      requires Valid() && i < |line| && out.Valid()
      requires keyLens != out.items && valLens != out.items
      modifies out, out.items
      ensures out.Valid() && out.pushed == old(out.pushed) + Subst(table, HeadPiece(line[i..]))
      ensures next == i + |Source(HeadPiece(line[i..]))|
    {
      hide ValueOf, IndexOf, HeadPiece, NameEnd;
      HeadCases(line, i);
      if line[i] == DOLLAR && i + 1 < |line| {
        if line[i + 1] == LBRACE {
          var j := ScanBrace(line, i + 2);
          if j < |line| {
            PushValue(line[i + 2..j], out);
            return j + 1;
          }
        } else if IsNameStart(line[i + 1]) {
          var j := ScanName(line, i + 1);
          PushValue(line[i + 1..j], out);
          return j;
        }
      }
      out.Push(line[i]);
      next := i + 1;
    }

    method ExpandVarsInto(line: bytes) returns (r: bytes)
      requires Valid()
      ensures r == Take(ExpandVars(table, line), CAPACITY)
    {
      hide ExpandVars, HeadPiece, Subst, Source;
      var out := new ByteVec();
      var i := 0;
      assert line[0..] == line;
      while i < |line|
        invariant 0 <= i <= |line| && Valid() && out.Valid() && fresh(out) && fresh(out.items)
        invariant out.pushed + ExpandVars(table, line[i..]) == ExpandVars(table, line)
      {
        VarsStep(table, line, i, out.pushed);
        i := ExpandPiece(line, i, out);
      }
      assert line[i..] == [];
      ExpandEmpty(table);
      Unit(out.pushed);
      r := out.AsSlice();
    }

    // The loop body of expand_tilde.
    method TildeOne(line: bytes, i: nat, out: ByteVec) returns (next: nat)
      requires Valid() && i < |line| && out.Valid()
      requires keyLens != out.items && valLens != out.items
      modifies out, out.items
      ensures var head := TildeHead(table, line[i..], i == 0 || StartsWord(line[i - 1]));
              out.Valid() && out.pushed == old(out.pushed) + head.0 && next == i + head.1
    {
      hide Lookup;
      ghost var rest, before := line[i..], out.pushed;
      if line[i] == TILDE && (i == 0 || line[i - 1] == SPACE || line[i - 1] == TAB) {
        var j := i + 1;
        while j < |line| && line[j] != SLASH && !IsBlank(line[j])
          invariant i < j <= |line| && UserEnd(line, j) == UserEnd(line, i + 1)
        {
          j := j + 1;
        }
        UserEndShift(line, i);
        if j == i + 1 {
          var home := EnvGet(HOME_KEY);
          if home.Some? {
            out.Extend(home.value);
          } else {
            out.Extend(DEFAULT_HOME);
          }
        } else {
          out.Extend(USERS);
          out.Extend(line[i + 1..j]);
          assert rest[1..j - i] == line[i + 1..j];
          assert before + USERS + line[i + 1..j] == before + (USERS + line[i + 1..j]);
        }
        return j;
      }
      out.Push(line[i]);
      next := i + 1;
    }

    method ExpandTildeInto(line: bytes) returns (r: bytes)
      requires Valid()
      ensures r == Take(ExpandTilde(table, line, true), CAPACITY)
    {
      hide ExpandTilde, TildeHead;
      var out := new ByteVec();
      var i := 0;
      assert line[0..] == line;
      while i < |line|
        invariant 0 <= i <= |line| && Valid() && out.Valid() && fresh(out) && fresh(out.items)
        invariant out.pushed + ExpandTilde(table, line[i..], i == 0 || StartsWord(line[i - 1])) ==
                  ExpandTilde(table, line, true)
      {
        ghost var atStart, before := i == 0 || StartsWord(line[i - 1]), out.pushed;
        ghost var head := TildeHead(table, line[i..], atStart);
        TildeUnfold(table, line[i..], atStart);
        assert line[i..][head.1..] == line[i + head.1..];
        assert line[i..][head.1 - 1] == line[i + head.1 - 1];
        ghost var tail := ExpandTilde(table, line[i + head.1..], StartsWord(line[i + head.1 - 1]));
        Assoc(before, head.0, tail);
        i := TildeOne(line, i, out);
      }
      assert forall b :: ExpandTilde(table, [], b) == [] by { TildeEmpty(table); }
      assert out.pushed + [] == out.pushed;
      r := out.AsSlice();
    }
  }
}
