// The copy loop of cp and the copy-and-remove fallback of mv (src/commands/file/copy.rs),
// for every schedule of short reads, short writes and errors.
module Copy {
  import opened Bytes
  import Path

  const CHUNK: nat := 512

  // What the kernel answers to the n-th read and the n-th write call. A negative read and a
  // non-positive write are errors; any other answer picks a length that the call allows.
  datatype Schedule = Schedule(onRead: nat -> int, onWrite: nat -> int)

  // A read at end-of-file gives 0, otherwise between 1 and all of what fits.
  function ReadAnswer(a: int, remaining: nat): (n: int)
    ensures n >= 0 ==> n <= Min(CHUNK, remaining) && (n == 0 <==> remaining == 0)
  {
    if a < 0 then -1 else if remaining == 0 then 0 else 1 + a % Min(CHUNK, remaining)
  }

  function WriteAnswer(a: int, wanted: nat): (n: int)
    requires wanted > 0
    ensures n <= wanted
  {
    if a <= 0 then a else 1 + a % wanted
  }

  // ----- The loops as functions -----

  // The inner loop, from the state where `written` bytes of the chunk are out and w write
  // calls were made: how many bytes get out, the number of calls made, and success.
  function WriteRun(chunk: bytes, written: nat, sched: Schedule, w: nat): (r: (nat, nat, bool))
    requires written <= |chunk|
    ensures written <= r.0 <= |chunk| && (r.2 <==> r.0 == |chunk|)
    decreases |chunk| - written
  {
    if written == |chunk| then (written, w, true)
    else
      var n := WriteAnswer(sched.onWrite(w), |chunk| - written);
      if n <= 0 then (written, w + 1, false) else WriteRun(chunk, written + n, sched, w + 1)
  }

  // The whole loop over the unread source bytes: what reaches the destination, and success.
  function CopyRun(rest: bytes, sched: Schedule, r: nat, w: nat): (bytes, bool)
    decreases |rest|
  {
    var n := ReadAnswer(sched.onRead(r), |rest|);
    if n < 0 then ([], false)
    else if n == 0 then ([], true)
    else
      var (out, w', ok) := WriteRun(rest[..n], 0, sched, w);
      if !ok then (rest[..out], false)
      else
        var (more, done) := CopyRun(rest[n..], sched, r + 1, w');
        (rest[..n] + more, done)
  }

  // Success means that the destination got exactly the source bytes; failure leaves a prefix.
  lemma {:induction false} CopyIsPrefix(rest: bytes, sched: Schedule, r: nat, w: nat)
    ensures CopyRun(rest, sched, r, w).0 <= rest
    ensures CopyRun(rest, sched, r, w).1 ==> CopyRun(rest, sched, r, w).0 == rest
    decreases |rest|
  {
    var n := ReadAnswer(sched.onRead(r), |rest|);
    if n > 0 {
      var (out, w', ok) := WriteRun(rest[..n], 0, sched, w);
      if ok {
        CopyIsPrefix(rest[n..], sched, r + 1, w');
        assert rest == rest[..n] + rest[n..];
      }
    }
  }

  // Short reads and writes alone never make it fail.
  lemma {:induction false} CopySucceeds(rest: bytes, sched: Schedule, r: nat, w: nat)
    requires forall n: nat :: sched.onRead(n) >= 0 && sched.onWrite(n) > 0
    ensures CopyRun(rest, sched, r, w) == (rest, true)
    decreases |rest|
  {
    CopyIsPrefix(rest, sched, r, w);
    var n := ReadAnswer(sched.onRead(r), |rest|);
    if n > 0 {
      WriteSucceeds(rest[..n], 0, sched, w);
      var (out, w', ok) := WriteRun(rest[..n], 0, sched, w);
      CopySucceeds(rest[n..], sched, r + 1, w');
    }
  }

  lemma {:induction false} WriteSucceeds(chunk: bytes, written: nat, sched: Schedule, w: nat)
    requires written <= |chunk| && forall n: nat :: sched.onWrite(n) > 0
    ensures WriteRun(chunk, written, sched, w).2
    decreases |chunk| - written
  {
    if written < |chunk| {
      var n := WriteAnswer(sched.onWrite(w), |chunk| - written);
      WriteSucceeds(chunk, written + n, sched, w + 1);
    }
  }

  // ----- The loops themselves -----

  class Transfer {
    const src: bytes
    const sched: Schedule
    var pos: nat
    var dst: bytes
    var readCalls: nat
    var writeCalls: nat

    constructor (src: bytes, sched: Schedule)
      ensures this.src == src && this.sched == sched && pos == 0 && dst == [] && readCalls == 0 && writeCalls == 0
    {
      this.src, this.sched := src, sched;
      pos, dst, readCalls, writeCalls := 0, [], 0, 0;
    }

    method ReadCall(buf: array<byte>) returns (n: int)
      requires pos <= |src| && buf.Length == CHUNK
      modifies this`pos, this`readCalls, buf
      ensures n == ReadAnswer(sched.onRead(old(readCalls)), |src| - old(pos)) && readCalls == old(readCalls) + 1
      ensures n < 0 ==> pos == old(pos)
      ensures n >= 0 ==> pos == old(pos) + n <= |src| && buf[..n] == src[old(pos)..pos]
    {
      n := ReadAnswer(sched.onRead(readCalls), |src| - pos);
      readCalls := readCalls + 1;
      if n >= 0 {
        forall k | 0 <= k < n {
          buf[k] := src[pos + k];
        }
        pos := pos + n;
      }
    }

    method WriteCall(buf: array<byte>, from: nat, to: nat) returns (n: int)
      requires from < to <= buf.Length
      modifies this`dst, this`writeCalls
      ensures n == WriteAnswer(sched.onWrite(old(writeCalls)), to - from) && writeCalls == old(writeCalls) + 1
      ensures dst == old(dst) + if n <= 0 then [] else buf[from..from + n]
    {
      n := WriteAnswer(sched.onWrite(writeCalls), to - from);
      writeCalls := writeCalls + 1;
      dst := dst + if n <= 0 then [] else buf[from..from + n];
    }

    method WriteLoop(buf: array<byte>, n: nat) returns (ok: bool)
      requires n <= buf.Length
      modifies this`dst, this`writeCalls
      ensures var run := WriteRun(buf[..n], 0, sched, old(writeCalls));
              ok == run.2 && writeCalls == run.1 && dst == old(dst) + buf[..run.0]
    {
      var written := 0;
      while written < n
        invariant 0 <= written <= n
        invariant dst == old(dst) + buf[..written]
        invariant WriteRun(buf[..n], written, sched, writeCalls) == WriteRun(buf[..n], 0, sched, old(writeCalls))
      {
        var w := WriteCall(buf, written, n);
        if w <= 0 {
          return false;
        }
        assert buf[..written] + buf[written..written + w] == buf[..written + w];
        written := written + w;
      }
      ok := true;
    }

    method CopyLoop() returns (ok: bool)
      requires pos <= |src|
      modifies this`pos, this`dst, this`readCalls, this`writeCalls
      ensures var run := CopyRun(src[old(pos)..], sched, old(readCalls), old(writeCalls));
              ok == run.1 && dst == old(dst) + run.0
    {
      hide CopyRun, WriteRun, ReadAnswer, WriteAnswer;
      var buf := new byte[CHUNK](_ => 0);
      ghost var all := CopyRun(src[pos..], sched, readCalls, writeCalls);
      while true
        invariant pos <= |src|
        invariant Joined(dst, CopyRun(src[pos..], sched, readCalls, writeCalls)) == Joined(old(dst), all)
        decreases |src| - pos
      {
        CopyStep(src[pos..], sched, readCalls, writeCalls, dst);
        ghost var rest := src[pos..];
        var n := ReadCall(buf);
        if n < 0 {
          return false;
        }
        if n == 0 {
          return true;
        }
        assert rest[..n] == buf[..n] && rest[n..] == src[pos..];
        var sent := WriteLoop(buf, n);
        if !sent {
          assert forall k :: 0 <= k <= n ==> rest[..n][..k] == buf[..k];
          return false;
        }
        assert rest[..n][..n] == buf[..n];
      }
    }
  }

  // A destination followed by what a run adds to it, and the run's success.
  function Joined(dst: bytes, run: (bytes, bool)): (bytes, bool) {
    (dst + run.0, run.1)
  }

  // One round of the outer loop.
  lemma CopyStep(rest: bytes, sched: Schedule, r: nat, w: nat, dst: bytes)
    ensures var n := ReadAnswer(sched.onRead(r), |rest|);
            var all := Joined(dst, CopyRun(rest, sched, r, w));
            if n <= 0 then all == (dst, n == 0)
            else
              var (out, w', ok) := WriteRun(rest[..n], 0, sched, w);
              if !ok then all == (dst + rest[..n][..out], false)
              else out == n && all == Joined(dst + rest[..n][..out], CopyRun(rest[n..], sched, r + 1, w'))
  {
    var n := ReadAnswer(sched.onRead(r), |rest|);
    if n <= 0 {
      assert dst + [] == dst;
    } else {
      var (out, w', ok) := WriteRun(rest[..n], 0, sched, w);
      assert rest[..n][..out] == rest[..out];
      if ok {
        var more := CopyRun(rest[n..], sched, r + 1, w').0;
        assert dst + rest[..n] + more == dst + (rest[..n] + more);
      }
    }
  }

  // ----- cp and mv over a file system -----

  type Files = map<bytes, bytes>

  // Which of the other system calls succeed. Creating a file empties it.
  datatype Outcome = Outcome(rename: bool, open: bool, create: bool, unlink: bool, sched: Schedule)

  // src and dst are resolved paths.
  function Cp(fs: Files, src: bytes, dst: bytes, o: Outcome): (Files, bool) {
    if src !in fs || !o.open then (fs, false)
    else if !o.create then (fs, false)
    else
      var created := fs[dst := []];
      var (copied, ok) := CopyRun(created[src], o.sched, 0, 0);
      (created[dst := copied], ok)
  }

  function Mv(fs: Files, src: bytes, dst: bytes, o: Outcome): Files {
    if src in fs && o.rename then (fs - {src})[dst := fs[src]]
    else
      var (copied, ok) := Cp(fs, src, dst, o);
      if ok && o.unlink then copied - {src} else copied
  }

  // A copy that succeeds has the contents at the destination exactly when the two paths differ
  // or there was nothing to copy: creating the destination empties it.
  lemma CpKeepsContents(fs: Files, src: bytes, dst: bytes, o: Outcome)
    requires src in fs && Cp(fs, src, dst, o).1
    ensures var after := Cp(fs, src, dst, o).0;
            dst in after && (after[dst] == fs[src] <==> src != dst || fs[src] == [])
  {
    CopyIsPrefix(fs[src], o.sched, 0, 0);
    CopyIsPrefix([], o.sched, 0, 0);
  }

  // Moving a file onto another path: the source is gone only when its full contents are at
  // the destination, and no third file changes.
  lemma MvKeepsContents(fs: Files, src: bytes, dst: bytes, o: Outcome)
    requires src in fs && src != dst
    ensures var after := Mv(fs, src, dst, o);
            && (src !in after ==> dst in after && after[dst] == fs[src])
            && (src in after ==> after[src] == fs[src])
            && forall p :: p != src && p != dst ==> (p in after <==> p in fs) && (p in fs ==> after[p] == fs[p])
  {
    CopyIsPrefix(fs[src], o.sched, 0, 0);
  }

  // No call of the copy fails, however little each read and write does.
  ghost predicate AllSucceed(o: Outcome) {
    o.open && o.create && forall n: nat :: o.sched.onRead(n) >= 0 && o.sched.onWrite(n) > 0
  }

  // Main result: when a move happens. It does when the rename succeeds, or the copy and the
  // unlink do; without the unlink both files stay; and nothing changes when the rename fails
  // and a file cannot be opened or created.
  lemma MvMoves(fs: Files, src: bytes, dst: bytes, o: Outcome)
    requires src != dst
    ensures var after := Mv(fs, src, dst, o);
            && (src !in fs ==> after == fs)
            && (src in fs && (o.rename || (AllSucceed(o) && o.unlink)) ==>
                  src !in after && dst in after && after[dst] == fs[src])
            && (src in fs && !o.rename && AllSucceed(o) && !o.unlink ==>
                  src in after && after[src] == fs[src] && dst in after && after[dst] == fs[src])
            && (!o.rename && (!o.open || !o.create) ==> after == fs)
            && (src in fs && !o.rename && o.open && o.create ==>
                  dst in after && after[dst] <= fs[src] && (after[dst] != fs[src] ==> src in after))
  {
    hide CopyRun;
    if src in fs {
      CopyIsPrefix(fs[src], o.sched, 0, 0);
      if AllSucceed(o) {
        CopySucceeds(fs[src], o.sched, 0, 0);
      }
    }
  }

  // The same for a copy between two paths, and that no other file changes.
  lemma CpCopies(fs: Files, src: bytes, dst: bytes, o: Outcome)
    requires src != dst
    ensures var (after, ok) := Cp(fs, src, dst, o);
            && (src !in fs || !o.open || !o.create ==> after == fs && !ok)
            && (src in fs && o.open && o.create ==>
                  dst in after && after[dst] <= fs[src] && (ok ==> after[dst] == fs[src]))
            && (src in fs && AllSucceed(o) ==> ok)
            && forall p :: p != dst ==> (p in after <==> p in fs) && (p in fs ==> after[p] == fs[p])
  {
    hide CopyRun;
    if src in fs {
      CopyIsPrefix(fs[src], o.sched, 0, 0);
      if AllSucceed(o) {
        CopySucceeds(fs[src], o.sched, 0, 0);
      }
    }
  }

  // Exactly when no copy of the contents survives: the two paths are one, the rename fails,
  // and creating the destination empties the source before it is read. An empty file is
  // lost when it is also unlinked after the copy.
  lemma MvLosesContents(fs: Files, src: bytes, dst: bytes, o: Outcome)
    requires src in fs
    ensures var after := Mv(fs, src, dst, o);
            (src in after && after[src] == fs[src]) || (dst in after && after[dst] == fs[src]) <==>
            !(src == dst && !o.rename && o.open && o.create &&
              (fs[src] != [] || (o.sched.onRead(0) >= 0 && o.unlink)))
  {
    CopyIsPrefix(fs[src], o.sched, 0, 0);
    CopyIsPrefix([], o.sched, 0, 0);
  }

  // ----- The commands -----

  // The file that an argument names, as the system calls see it: resolved, up to a NUL.
  function PathOf(arg: bytes, cwd: Option<bytes>): Option<bytes>
    requires cwd.Some? ==> cwd.value != []
  {
    var p := Path.Resolved(arg, cwd);
    if p.Some? then Some(CString(p.value)) else None
  }

  function MvCommand(fs: Files, args: seq<bytes>, cwd: Option<bytes>, o: Outcome): Files
    requires cwd.Some? ==> cwd.value != []
  {
    if |args| < 2 || PathOf(args[0], cwd).None? || PathOf(args[1], cwd).None? then fs
    else Mv(fs, PathOf(args[0], cwd).value, PathOf(args[1], cwd).value, o)
  }

  // Whatever is typed, mv changes nothing, or its arguments name two files: if these differ,
  // the first is gone only when its contents are at the second, and no third file changes.
  lemma MvCommandKeeps(fs: Files, args: seq<bytes>, cwd: Option<bytes>, o: Outcome)
    requires cwd.Some? ==> cwd.value != []
    ensures var after := MvCommand(fs, args, cwd, o);
            after == fs ||
            (|args| >= 2 && PathOf(args[0], cwd).Some? && PathOf(args[1], cwd).Some? &&
             var src, dst := PathOf(args[0], cwd).value, PathOf(args[1], cwd).value;
             && (src in fs && src != dst && src !in after ==> dst in after && after[dst] == fs[src])
             && (src in fs && src != dst && src in after ==> after[src] == fs[src])
             && forall p :: p != src && p != dst ==> (p in after <==> p in fs) && (p in fs ==> after[p] == fs[p]))
  {
    hide CopyRun;
    if |args| >= 2 && PathOf(args[0], cwd).Some? && PathOf(args[1], cwd).Some? {
      var src, dst := PathOf(args[0], cwd).value, PathOf(args[1], cwd).value;
      if src in fs && src != dst {
        MvKeepsContents(fs, src, dst, o);
      }
    }
  }

  // And it moves: two arguments that resolve, to different paths, are moved whenever the calls
  // succeed; with fewer, or one that does not resolve, nothing happens.
  lemma MvCommandMoves(fs: Files, args: seq<bytes>, cwd: Option<bytes>, o: Outcome, src: bytes, dst: bytes)
    requires cwd.Some? ==> cwd.value != []
    requires NUL !in src && NUL !in dst && src != dst
    ensures var after := MvCommand(fs, args, cwd, o);
            && (|args| < 2 || Path.Resolved(args[0], cwd).None? || Path.Resolved(args[1], cwd).None? ==> after == fs)
            && (|args| >= 2 && Path.Resolved(args[0], cwd) == Some(src) && Path.Resolved(args[1], cwd) == Some(dst) &&
                src in fs && (o.rename || (AllSucceed(o) && o.unlink)) ==>
                  src !in after && dst in after && after[dst] == fs[src])
  {
    hide Mv, Path.Resolved, AllSucceed;
    CStringIs(src);
    CStringIs(dst);
    MvMoves(fs, src, dst, o);
  }
}
