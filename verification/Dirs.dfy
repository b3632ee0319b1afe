// Directory scans, token splitting and glob expansion
// (src/features/service/glob.rs, all but the matcher itself).
module Dirs {
  import opened Bytes
  import opened Glob

  // What the readdir system call lists for a path, in order; one scan sees the whole list.
  type Listing = bytes -> seq<bytes>

  const SCAN_MAX: nat := 64
  const ENTRY_MAX: nat := 63
  const ARG_MAX: nat := 127
  const DIR_MAX: nat := 64

  // The 255-byte buffer shows at most that much of a name, and an entry holds 63 bytes.
  function EntryName(name: bytes): bytes {
    Take(Take(CString(name), 255), ENTRY_MAX)
  }

  function ScanPath(dir: bytes): bytes {
    if dir == [] then [SLASH] else Take(dir, 255)
  }

  // The entries a scan yields: at most 64, each cut to 63 bytes.
  function Entries(ls: Listing, dir: bytes): (es: seq<bytes>)
    ensures |es| <= SCAN_MAX
    ensures forall k :: 0 <= k < |es| ==> |es[k]| <= ENTRY_MAX
  {
    var names := Take(ls(ScanPath(dir)), SCAN_MAX);
    seq(|names|, k requires 0 <= k < |names| => EntryName(names[k]))
  }

  // Length of the part up to and including the last '/'.
  function DirLen(tok: bytes): (n: nat)
    ensures n <= |tok|
    ensures n > 0 ==> tok[n - 1] == SLASH
    ensures forall k :: n <= k < |tok| ==> tok[k] != SLASH
  {
    if tok == [] || tok[|tok| - 1] == SLASH then |tok| else DirLen(tok[..|tok| - 1])
  }

  function DirPart(tok: bytes): bytes {
    tok[..DirLen(tok)]
  }

  function NamePart(tok: bytes): bytes {
    tok[DirLen(tok)..]
  }

  // The split loses nothing, and the second part holds no '/'.
  lemma SplitParts(tok: bytes)
    ensures DirPart(tok) + NamePart(tok) == tok && SLASH !in NamePart(tok)
    ensures DirPart(tok) == [] <==> SLASH !in tok
  {
    var n := DirLen(tok);
    assert forall k :: 0 <= k < |tok| - n ==> NamePart(tok)[k] == tok[k + n];
    if SLASH in tok {
      var k :| 0 <= k < |tok| && tok[k] == SLASH;
    }
    assert n > 0 ==> tok[n - 1] in tok;
  }

  predicate HasGlob(tok: bytes) {
    exists k :: 0 <= k < |tok| && (tok[k] == STAR || tok[k] == QUESTION || tok[k] == OPEN)
  }

  // The argument built for a matching entry: at most 64 directory bytes, 127 in all.
  function Argument(dir: bytes, name: bytes): bytes {
    var d := Take(dir, DIR_MAX);
    d + Take(name, ARG_MAX - |d|)
  }

  function Matching(pattern: bytes, dir: bytes, entries: seq<bytes>): seq<bytes> {
    if entries == [] then []
    else
      (if Decides(pattern, entries[0]) then [Argument(dir, entries[0])] else []) +
      Matching(pattern, dir, entries[1..])
  }

  function Expanded(tok: bytes, ls: Listing): (r: seq<bytes>)
    ensures r != []
  {
    var found := Matching(NamePart(tok), DirPart(tok), Entries(ls, DirPart(tok)));
    if !HasGlob(tok) || found == [] then [Take(tok, ARG_MAX)] else found
  }

  lemma MatchingStep(pattern: bytes, dir: bytes, entries: seq<bytes>, k: nat, before: seq<bytes>)
    requires k < |entries|
    ensures before + Matching(pattern, dir, entries[k..]) ==
            (if Decides(pattern, entries[k]) then before + [Argument(dir, entries[k])] else before) +
            Matching(pattern, dir, entries[k + 1..])
  {
    hide Decides;
    assert entries[k..][1..] == entries[k + 1..];
    var rest := Matching(pattern, dir, entries[k + 1..]);
    assert before + ([Argument(dir, entries[k])] + rest) == before + [Argument(dir, entries[k])] + rest;
    assert [] + rest == rest;
  }

  method GlobExpand(tok: bytes, ls: Listing) returns (result: seq<bytes>)
    ensures result == Expanded(tok, ls)
  {
    hide Matching, Decides, Entries, DirLen;
    if !HasGlob(tok) {
      return [Take(tok, ARG_MAX)];
    }
    var dir, pattern := DirPart(tok), NamePart(tok);
    var entries := Entries(ls, dir);
    result := [];
    var k := 0;
    assert entries[0..] == entries;
    while k < |entries|
      invariant 0 <= k <= |entries|
      invariant result + Matching(pattern, dir, entries[k..]) == [] + Matching(pattern, dir, entries)
    {
      MatchingStep(pattern, dir, entries, k, result);
      var matched, _ := GlobMatch(pattern, entries[k]);
      if matched {
        var dn := Min(|dir|, DIR_MAX);
        var fn := Min(|entries[k]|, ARG_MAX - dn);
        result := result + [dir[..dn] + entries[k][..fn]];
      }
      k := k + 1;
    }
    NothingMatches(pattern, dir);
    assert entries[k..] == [];
    assert result + [] == result;
    assert [] + Matching(pattern, dir, entries) == Matching(pattern, dir, entries);
    if result == [] {
      result := [Take(tok, ARG_MAX)];
    }
  }

  lemma NothingMatches(pattern: bytes, dir: bytes)
    ensures Matching(pattern, dir, []) == []
  {
  }

  // Does entry k give this argument?
  ghost predicate Yields(pattern: bytes, dir: bytes, entries: seq<bytes>, k: nat, arg: bytes) {
    k < |entries| && Decides(pattern, entries[k]) && arg == Argument(dir, entries[k])
  }

  lemma {:induction false} MatchingMembers(pattern: bytes, dir: bytes, entries: seq<bytes>, arg: bytes)
    ensures arg in Matching(pattern, dir, entries) <==> exists k: nat :: Yields(pattern, dir, entries, k, arg)
  {
    hide Decides;
    if entries != [] {
      MatchingMembers(pattern, dir, entries[1..], arg);
      if k: nat :| Yields(pattern, dir, entries[1..], k, arg) {
        assert Yields(pattern, dir, entries, k + 1, arg);
      }
      if k: nat :| k > 0 && Yields(pattern, dir, entries, k, arg) {
        assert Yields(pattern, dir, entries[1..], k - 1, arg);
      }
      if Decides(pattern, entries[0]) && arg == Argument(dir, entries[0]) {
        assert Yields(pattern, dir, entries, 0, arg);
      }
    }
  }

  // Main result: what a token with a wildcard (42, 63 or 91) expands to. The arguments are those
  // of the entries accepted, once each and in the order
  // of the scan, each behind at most 64 bytes of its directory.
  lemma ExpansionInOrder(tok: bytes, ls: Listing) returns (ks: seq<nat>)
    requires 42 in tok || 63 in tok || 91 in tok
    ensures var entries := Entries(ls, DirPart(tok));
            && Picks(entries, NamePart(tok), 0, ks)
            && (if ks == [] then Expanded(tok, ls) == [tok[..Min(|tok|, 127)]]
                else ArgumentsOf(entries, DirPart(tok), ks, Expanded(tok, ls)))
  {
    hide Entries, Decides, DirLen;
    var entries := Entries(ls, DirPart(tok));
    ks := MatchingInOrder(NamePart(tok), DirPart(tok), entries, 0);
    assert entries[0..] == entries;
  }

  // The positions from j on of the accepted entries, in increasing order.
  ghost predicate Picks(entries: seq<bytes>, pattern: bytes, j: nat, ks: seq<nat>) {
    && Increasing(ks)
    && (forall k: nat :: k in ks <==> j <= k < |entries| && Decides(pattern, entries[k]))
  }

  ghost predicate ArgumentsOf(entries: seq<bytes>, dir: bytes, ks: seq<nat>, args: seq<bytes>) {
    && |args| == |ks|
    && (forall i :: 0 <= i < |ks| ==>
          ks[i] < |entries| && args[i] == dir[..Min(|dir|, 64)] + entries[ks[i]])
  }

  lemma {:induction false} MatchingInOrder(pattern: bytes, dir: bytes, entries: seq<bytes>, j: nat)
    returns (ks: seq<nat>)
    requires j <= |entries| && forall k :: 0 <= k < |entries| ==> |entries[k]| <= 63
    ensures Picks(entries, pattern, j, ks)
    ensures ArgumentsOf(entries, dir, ks, Matching(pattern, dir, entries[j..]))
    decreases |entries| - j
  {
    hide Decides, ArgumentsOf, Argument, Matching;
    if j == |entries| {
      ks := [];
      NothingMatches(pattern, dir);
      assert entries[j..] == [];
      NoArguments(entries, dir);
    } else {
      var rest := MatchingInOrder(pattern, dir, entries, j + 1);
      MatchingStep(pattern, dir, entries, j, []);
      Unit(Matching(pattern, dir, entries[j..]));
      var more := Matching(pattern, dir, entries[j + 1..]);
      Unit(more);
      Unit([Argument(dir, entries[j])]);
      if Decides(pattern, entries[j]) {
        ks := [j] + rest;
        ConsIncreasing(j, rest);
        FirstArgument(entries, dir, j, rest, more);
      } else {
        ks := rest;
      }
    }
  }

  lemma NoArguments(entries: seq<bytes>, dir: bytes)
    ensures ArgumentsOf(entries, dir, [], [])
  {
  }

  lemma FirstArgument(entries: seq<bytes>, dir: bytes, j: nat, rest: seq<nat>, args: seq<bytes>)
    requires j < |entries| && |entries[j]| <= 63 && ArgumentsOf(entries, dir, rest, args)
    ensures ArgumentsOf(entries, dir, [j] + rest, [Argument(dir, entries[j])] + args)
  {
  }

  // A token without wildcards (42, 63, 91) is its own expansion, cut to 127 bytes.
  lemma PlainToken(tok: bytes, ls: Listing)
    requires 42 !in tok && 63 !in tok && 91 !in tok
    ensures Expanded(tok, ls) == [tok[..Min(|tok|, 127)]]
  {
    hide Matching, Entries, DirLen;
    assert !HasGlob(tok);
  }

  // One scan, name by name: the first 64 names of the directory itself, or of the root when
  // there is none, each up to its NUL and at most 63 bytes of it.
  lemma EntriesOf(ls: Listing, dir: bytes, k: nat)
    ensures var names := ls(if dir == [] then [47] else dir[..Min(|dir|, 255)]);
            && |Entries(ls, dir)| == Min(|names|, 64)
            && (k < |Entries(ls, dir)| ==>
                  && Entries(ls, dir)[k] <= names[k]
                  && (0 !in names[k] ==> |Entries(ls, dir)[k]| == Min(|names[k]|, 63))
                  && (forall z: nat :: z < |names[k]| && names[k][z] == 0 && 0 !in names[k][..z] ==>
                        |Entries(ls, dir)[k]| == Min(z, 63)))
  {
    var names := ls(ScanPath(dir));
    if k < |Entries(ls, dir)| {
      CStringIs(names[k]);
      forall z: nat | z < |names[k]| && names[k][z] == 0 && 0 !in names[k][..z]
        ensures |CString(names[k])| == z
      {
        CStringEnds(names[k], z);
      }
    }
  }

  lemma {:induction false} CStringEnds(text: bytes, z: nat)
    requires z < |text| && text[z] == NUL && NUL !in text[..z]
    ensures |CString(text)| == z
  {
    if z > 0 {
      assert text[0] == text[..z][0];
      assert text[1..][..z - 1] == text[..z][1..];
      CStringEnds(text[1..], z - 1);
    }
  }

  // Is the argument one of these names, matched, behind the directory?
  ghost predicate IsMatch(tok: bytes, names: seq<bytes>, arg: bytes) {
    exists e :: e in names && Matches(Tokens(NamePart(tok)), e) && arg == DirPart(tok) + e
  }

  ghost predicate NoMatch(tok: bytes, names: seq<bytes>) {
    forall e :: e in names ==> !Matches(Tokens(NamePart(tok)), e)
  }

  // When the directory and the token need no cut and no entry holds a '*' byte, a pattern
  // expands to the entries it matches, each behind its directory, or else to itself.
  lemma ExpansionIsMatches(tok: bytes, ls: Listing, arg: bytes)
    requires HasGlob(tok) && |DirPart(tok)| <= DIR_MAX && |tok| <= ARG_MAX
    requires forall e :: e in Entries(ls, DirPart(tok)) ==> STAR !in e
    ensures var entries := Entries(ls, DirPart(tok));
            arg in Expanded(tok, ls) <==> IsMatch(tok, entries, arg) || (arg == tok && NoMatch(tok, entries))
  {
    hide Entries, Decides, Matches, Tokens, DirLen;
    var dir, pattern := DirPart(tok), NamePart(tok);
    var entries := Entries(ls, dir);
    SplitParts(tok);
    var found := Matching(pattern, dir, entries);
    forall e | e in entries
      ensures Decides(pattern, e) <==> Matches(Tokens(pattern), e)
      ensures Argument(dir, e) == dir + e
    {
      Correct(pattern, e);
    }
    assert Take(tok, ARG_MAX) == tok;
    assert forall k :: 0 <= k < |entries| ==> entries[k] in entries;
    MatchingMembers(pattern, dir, entries, arg);
    forall e | e in entries && Matches(Tokens(pattern), e)
      ensures Argument(dir, e) in found
    {
      var k: nat :| k < |entries| && entries[k] == e;
      assert Yields(pattern, dir, entries, k, Argument(dir, e));
      MatchingMembers(pattern, dir, entries, Argument(dir, e));
    }
    if found != [] {
      assert found[0] in found;
      MatchingMembers(pattern, dir, entries, found[0]);
      var k: nat :| Yields(pattern, dir, entries, k, found[0]);
      assert entries[k] in entries;
    }
  }

  // ----- Which files the arguments name -----

  // A name that an entry can hold whole.
  predicate NameFits(name: bytes) {
    NUL !in name && |name| <= ENTRY_MAX
  }

  lemma EntryNameIs(name: bytes)
    ensures |EntryName(name)| <= |name|
    ensures EntryName(name) == name <==> NameFits(name)
  {
    CStringIs(name);
    if EntryName(name) == name {
      assert |CString(name)| == |name|;
    }
  }

  // A scan shows a directory as it is exactly when it has at most 64 names and each fits.
  lemma EntriesAreNames(ls: Listing, dir: bytes)
    ensures var names := ls(ScanPath(dir));
            Entries(ls, dir) == names <==>
            |names| <= SCAN_MAX && forall k :: 0 <= k < |names| ==> NameFits(names[k])
  {
    hide EntryName, NameFits;
    var names := ls(ScanPath(dir));
    forall k | 0 <= k < |names| ensures EntryName(names[k]) == names[k] <==> NameFits(names[k]) {
      EntryNameIs(names[k]);
    }
    if |names| <= SCAN_MAX {
      assert |Entries(ls, dir)| == |names|;
      if Entries(ls, dir) == names {
        forall k | 0 <= k < |names| ensures EntryName(names[k]) == names[k] {
          assert Entries(ls, dir)[k] == names[k];
        }
      }
    }
  }

  // The argument made for a listed name is that file's path exactly when the name fits and
  // the directory is at most 64 bytes.
  lemma ArgumentNamesFile(dir: bytes, name: bytes)
    ensures Argument(dir, EntryName(name)) == dir + name <==> |dir| <= DIR_MAX && NameFits(name)
  {
    EntryNameIs(name);
    hide EntryName, NameFits;
    var arg := Argument(dir, EntryName(name));
    if |dir| <= DIR_MAX {
      assert Take(dir, DIR_MAX) == dir;
      assert |EntryName(name)| <= ENTRY_MAX ==> arg == dir + EntryName(name);
      assert |EntryName(name)| <= ENTRY_MAX by { EntryIsShort(name); }
      assert EntryName(name) == (dir + EntryName(name))[|dir|..];
      assert name == (dir + name)[|dir|..];
    }
  }

  lemma EntryIsShort(name: bytes)
    ensures |EntryName(name)| <= ENTRY_MAX
  {
  }

  // So for a directory that a scan shows as it is, without '*' bytes, the arguments are the
  // paths of exactly the matching files, or the token itself when there is none. A token
  // without '/' is matched against the root directory, whatever the working directory.
  lemma ExpansionIsListing(tok: bytes, ls: Listing, arg: bytes)
    requires HasGlob(tok) && |DirPart(tok)| <= DIR_MAX && |tok| <= ARG_MAX
    requires var names := ls(ScanPath(DirPart(tok)));
             |names| <= SCAN_MAX && forall k :: 0 <= k < |names| ==> NameFits(names[k]) && STAR !in names[k]
    ensures var names := ls(ScanPath(DirPart(tok)));
            arg in Expanded(tok, ls) <==> IsMatch(tok, names, arg) || (arg == tok && NoMatch(tok, names))
    ensures SLASH !in tok ==> ScanPath(DirPart(tok)) == [SLASH]
  {
    hide Entries, Expanded, IsMatch, NoMatch, NameFits;
    EntriesAreNames(ls, DirPart(tok));
    SplitParts(tok);
    ExpansionIsMatches(tok, ls, arg);
  }
}
